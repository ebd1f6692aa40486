/**
 * `VCardDownload.Run`: validate the requested id, read the record, fill the
 * card template and name the file.
 *
 * The HTTP request, the table client and the template file are parameters:
 * `id` is the query's `Id` value, `store` the table (`None` when reading it
 * throws), `template` the text of the template file, `now` today's date.
 */
module Download {
  import opened Common
  import opened IsoDate
  import opened Records
  import opened TableStore
  import opened Template

  /** The two configuration values the card reads. */
  datatype DownloadConfig = DownloadConfig(homepageUrl: Option<string>, sourcePath: Option<string>)

  /** The function's HTTP answers. */
  datatype Response =
    | BadRequest(message: string)                // 400 with a message body
    | NotFound                                   // 404, empty body
    | FileResult(fileName: string, body: string) // 200, an octet-stream download
    | ServerError                                // 500, empty body

  const NoValidIdMessage: string := "No valid ID was provided"

  // ---------------------------------------------------------------------------
  // Placeholders
  // ---------------------------------------------------------------------------

  /** The card's placeholders. */
  datatype Placeholder =
    | Surname | GivenName | DisplayName | Department | Title | Company | Phone
    | Street | City | State | PostalCode | Country | Mail | Upn
    | Mobile | CardDay | HomepageUrl | Source | Photo

  /** The placeholders in the order the card replaces them. */
  const ReplaceOrder: seq<Placeholder> :=
    [Surname, GivenName, DisplayName, Department, Title, Company, Phone,
     Street, City, State, PostalCode, Country, Mail, Upn,
     Mobile, CardDay, HomepageUrl, Source, Photo]

  /** The name inside the placeholder's token. */
  function NameOf(p: Placeholder): string {
    match p
    case Surname => "surname"
    case GivenName => "givenName"
    case DisplayName => "displayName"
    case Department => "department"
    case Title => "title"
    case Company => "company"
    case Phone => "phone"
    case Street => "street"
    case City => "city"
    case State => "state"
    case PostalCode => "postalCode"
    case Country => "country"
    case Mail => "mail"
    case Upn => "upn"
    case Mobile => "mobile"
    case CardDay => "date"
    case HomepageUrl => "homepageUrl"
    case Source => "source"
    case Photo => "photo"
  }

  /** `prefix + value`, or nothing when the value is null or empty. */
  function Line(prefix: string, value: Option<string>): (r: string)
    ensures IsNullOrEmpty(value) ==> r == ""
    ensures !IsNullOrEmpty(value) ==> |r| > |prefix| && r[..|prefix|] == prefix && r[|prefix|..] == value.value
  {
    if IsNullOrEmpty(value) then "" else prefix + value.value
  }

  /** The day the card is dated: the store's timestamp when there is one, otherwise today. */
  function CardDate(rec: VCardData, now: Date): Date {
    if rec.timestamp.Some? then rec.timestamp.value else now
  }

  /** The card's link back to this function, when a source path is configured. */
  function SourceLine(config: DownloadConfig, id: string): string {
    if IsNullOrEmpty(config.sourcePath) then ""
    else "SOURCE:" + config.sourcePath.value + "/api/VCardDownload?id=" + id
  }

  /** The new value of one `Replace` call; null deletes the token. Only the phone can be null. */
  function ReplacementValue(rec: VCardData, id: string, config: DownloadConfig, now: Date, p: Placeholder): (r: Option<string>)
    ensures r.None? <==> p == Phone && rec.telephoneNumber.None?
  {
    match p
    case Surname => Some(rec.surname)
    case GivenName => Some(rec.givenName)
    case DisplayName => Some(rec.displayName)
    case Department => Some(rec.department)
    case Title => Some(rec.jobTitle)
    case Company => Some(rec.companyName)
    case Phone => rec.telephoneNumber
    case Street => Some(rec.streetAddress)
    case City => Some(rec.city)
    case State => Some(rec.state)
    case PostalCode => Some(rec.postalCode)
    case Country => Some(rec.country)
    case Mail => Some(rec.mail)
    case Upn => Some(rec.userPrincipalName)
    case Mobile => Some(Line("TEL;CELL:", rec.mobilePhone))
    case CardDay => Some(ToIsoDateString(CardDate(rec, now)))
    case HomepageUrl => Some(Line("URL;WORK:", config.homepageUrl))
    case Source => Some(SourceLine(config, id))
    case Photo => Some(Line("PHOTO;JPEG;ENCODING=BASE64:", rec.photo))
  }

  /** The card's `Replace` calls, in source order. */
  function Substitutions(rec: VCardData, id: string, config: DownloadConfig, now: Date): (subs: seq<Substitution>)
    ensures |subs| == |ReplaceOrder|
  {
    seq(|ReplaceOrder|, i requires 0 <= i < |ReplaceOrder| =>
      Substitution(NameOf(ReplaceOrder[i]), ReplacementValue(rec, id, config, now, ReplaceOrder[i])))
  }

  /** The download's file name. */
  function FileName(rec: VCardData): string {
    rec.givenName + "." + rec.surname + ".vcf"
  }

  /** One request. */
  function Download(id: Option<string>, isValidGuid: string -> bool, store: Option<Store>,
                    template: string, config: DownloadConfig, now: Date): (r: Response)
    ensures r.BadRequest? <==> IsNullOrWhiteSpace(id) || !isValidGuid(id.value)
    ensures r.BadRequest? ==> r.message == NoValidIdMessage
    ensures r.ServerError? <==> !r.BadRequest? && store.None?
    ensures r.NotFound? <==>
      && !r.BadRequest? && store.Some?
      && (Lookup(store.value, id.value).None? || IsNullOrWhiteSpace(Some(Lookup(store.value, id.value).value.displayName)))
    ensures r.FileResult? ==>
      && id.Some? && store.Some? && Lookup(store.value, id.value).Some?
      && var rec := Lookup(store.value, id.value).value;
      && !IsNullOrWhiteSpace(Some(rec.displayName))
      && r.fileName == rec.givenName + "." + rec.surname + ".vcf"
      && r.body == Render(template, Substitutions(rec, id.value, config, now))
  {
    if IsNullOrWhiteSpace(id) || !isValidGuid(id.value) then BadRequest(NoValidIdMessage)
    else if store.None? then ServerError
    else
      match Lookup(store.value, id.value)
      case None => NotFound
      case Some(rec) =>
        if IsNullOrWhiteSpace(Some(rec.displayName)) then NotFound
        else FileResult(FileName(rec), Render(template, Substitutions(rec, id.value, config, now)))
  }

  /**
   * The request as the code runs it: `GetEntity` throws for a missing row
   * instead of returning null, and the general `catch` answers 500. The null
   * test after the read never sees a missing row; only the display-name
   * test can answer 404.
   */
  function DownloadAsWritten(id: Option<string>, isValidGuid: string -> bool, store: Option<Store>,
                             template: string, config: DownloadConfig, now: Date): (r: Response)
    ensures r.BadRequest? <==> IsNullOrWhiteSpace(id) || !isValidGuid(id.value)
    ensures r.ServerError? <==> !r.BadRequest? && (store.None? || Lookup(store.value, id.value).None?)
    ensures !r.ServerError? ==> r == Download(id, isValidGuid, store, template, config, now)
  {
    if IsNullOrWhiteSpace(id) || !isValidGuid(id.value) then BadRequest(NoValidIdMessage)
    else if store.None? || Lookup(store.value, id.value).None? then ServerError
    else Download(id, isValidGuid, store, template, config, now)
  }

  /**
   * A valid id with no stored row: the code answers 500, where the null
   * check it carries for that case, and `Download`, answer 404.
   */
  lemma MissingRowIsServerError(id: string, isValidGuid: string -> bool, s: Store,
                                template: string, config: DownloadConfig, now: Date)
    requires !IsNullOrWhiteSpace(Some(id)) && isValidGuid(id)
    requires Lookup(s, id).None?
    ensures DownloadAsWritten(Some(id), isValidGuid, Some(s), template, config, now) == ServerError
    ensures Download(Some(id), isValidGuid, Some(s), template, config, now) == NotFound
  {
  }

  // ---------------------------------------------------------------------------
  // What each placeholder renders to
  // ---------------------------------------------------------------------------

  /** Where a placeholder stands in the replacement order. */
  function Position(p: Placeholder): (i: nat)
    ensures i < |ReplaceOrder| && ReplaceOrder[i] == p
  {
    match p
    case Surname => 0
    case GivenName => 1
    case DisplayName => 2
    case Department => 3
    case Title => 4
    case Company => 5
    case Phone => 6
    case Street => 7
    case City => 8
    case State => 9
    case PostalCode => 10
    case Country => 11
    case Mail => 12
    case Upn => 13
    case Mobile => 14
    case CardDay => 15
    case HomepageUrl => 16
    case Source => 17
    case Photo => 18
  }

  /** Distinct placeholders have distinct tokens. */
  lemma NamesDistinct(p: Placeholder, q: Placeholder)
    ensures NameOf(p) == NameOf(q) ==> p == q
  {
  }

  /** No token name holds a bracket. */
  lemma NameBracketFree(p: Placeholder)
    ensures BracketFree(NameOf(p))
  {
  }

  /** Every placeholder is replaced, and each exactly once. */
  lemma OrderIsPermutation()
    ensures forall j, k :: 0 <= j < k < |ReplaceOrder| ==> ReplaceOrder[j] != ReplaceOrder[k]
    ensures forall p: Placeholder :: p in ReplaceOrder
  {
    forall p: Placeholder
      ensures p in ReplaceOrder
    {
      assert ReplaceOrder[Position(p)] == p;
    }
  }

  /** With distinct names, the first substitution of a name is the only one. */
  lemma ValueOfDistinct(subs: seq<Substitution>, i: nat)
    requires i < |subs|
    requires forall j, k :: 0 <= j < k < |subs| ==> subs[j].name != subs[k].name
    ensures ValueOf(subs, subs[i].name) == Some(OrEmpty(subs[i].value))
  {
    var v := ValueOf(subs, subs[i].name);
    var j :| 0 <= j < |subs| && subs[j].name == subs[i].name && v.value == OrEmpty(subs[j].value)
              && forall k :: 0 <= k < j ==> subs[k].name != subs[i].name;
    assert j == i;
  }

  /**
   * Applying the card's replacements in order gives each placeholder its
   * own replacement value (a null one deleting the token), and a name that
   * is no placeholder's is left alone.
   */
  lemma SubstitutionsByName(rec: VCardData, id: string, config: DownloadConfig, now: Date, name: string)
    ensures forall p: Placeholder :: NameOf(p) == name ==>
      ValueOf(Substitutions(rec, id, config, now), name) == Some(OrEmpty(ReplacementValue(rec, id, config, now, p)))
    ensures (forall p: Placeholder :: NameOf(p) != name) ==> ValueOf(Substitutions(rec, id, config, now), name).None?
  {
    var subs := Substitutions(rec, id, config, now);
    OrderIsPermutation();
    forall j, k | 0 <= j < k < |subs|
      ensures subs[j].name != subs[k].name
    {
      NamesDistinct(ReplaceOrder[j], ReplaceOrder[k]);
    }
    forall p: Placeholder | NameOf(p) == name
      ensures ValueOf(subs, name) == Some(OrEmpty(ReplacementValue(rec, id, config, now, p)))
    {
      ValueOfDistinct(subs, Position(p));
    }
  }

  /** A placeholder's text on the card: its `Replace` value, null read as deletion. */
  function CardValue(rec: VCardData, id: string, config: DownloadConfig, now: Date, p: Placeholder): string {
    OrEmpty(ReplacementValue(rec, id, config, now, p))
  }

  /** The value a placeholder's token is replaced with is its card value. */
  lemma SubstitutionsMeanCard(rec: VCardData, id: string, config: DownloadConfig, now: Date, p: Placeholder)
    ensures ValueOf(Substitutions(rec, id, config, now), NameOf(p)) == Some(CardValue(rec, id, config, now, p))
  {
    SubstitutionsByName(rec, id, config, now, NameOf(p));
  }

  // ---------------------------------------------------------------------------
  // No placeholder left in the card
  // ---------------------------------------------------------------------------

  lemma NoOpenConcat(a: string, b: string)
    requires NoOpen(a) && NoOpen(b)
    ensures NoOpen(a + b)
  {
    assert forall i :: 0 <= i < |a + b| ==> (a + b)[i] == if i < |a| then a[i] else b[i - |a|];
  }

  lemma IsoDateNoOpen(d: Date)
    ensures NoOpen(ToIsoDateString(d))
  {
    IsoDateGroups(d);
    var y, m, dd := Pad(d.year, 4), Pad(d.month, 2), Pad(d.day, 2);
    assert NoOpen(y) && NoOpen(m) && NoOpen(dd) by {
      assert forall s: string :: AllDigits(s) ==> forall i :: 0 <= i < |s| ==> IsDigit(s[i]);
    }
    NoOpenConcat(y, "-");
    NoOpenConcat(y + "-", m);
    NoOpenConcat(y + "-" + m, "-");
    NoOpenConcat(y + "-" + m + "-", dd);
  }

  lemma LineNoOpen(prefix: string, value: Option<string>)
    requires NoOpen(prefix) && NoOpen(OrEmpty(value))
    ensures NoOpen(Line(prefix, value))
  {
    if !IsNullOrEmpty(value) {
      NoOpenConcat(prefix, value.value);
    }
  }

  /** No stored text, configuration value or id holds a '['. */
  predicate PlainInputs(rec: VCardData, id: string, config: DownloadConfig) {
    && (forall i :: 0 <= i < |TextFields(rec)| ==> NoOpen(TextFields(rec)[i]))
    && (forall i :: 0 <= i < |NullableFields(rec)| ==> NoOpen(OrEmpty(NullableFields(rec)[i])))
    && NoOpen(id)
    && NoOpen(OrEmpty(config.homepageUrl))
    && NoOpen(OrEmpty(config.sourcePath))
  }

  lemma ReplacementNoOpen(rec: VCardData, id: string, config: DownloadConfig, now: Date, p: Placeholder)
    requires PlainInputs(rec, id, config)
    ensures NoOpen(OrEmpty(ReplacementValue(rec, id, config, now, p)))
  {
    var tf, nf := TextFields(rec), NullableFields(rec);
    match p
    case Surname => assert NoOpen(tf[0]);
    case GivenName => assert NoOpen(tf[1]);
    case DisplayName => assert NoOpen(tf[2]);
    case Department => assert NoOpen(tf[3]);
    case Title => assert NoOpen(tf[4]);
    case Company => assert NoOpen(tf[5]);
    case Phone => assert NoOpen(OrEmpty(nf[0]));
    case Street => assert NoOpen(tf[6]);
    case City => assert NoOpen(tf[7]);
    case State => assert NoOpen(tf[8]);
    case PostalCode => assert NoOpen(tf[9]);
    case Country => assert NoOpen(tf[10]);
    case Mail => assert NoOpen(tf[11]);
    case Upn => assert NoOpen(tf[12]);
    case Mobile =>
      assert NoOpen(OrEmpty(nf[1]));
      LineNoOpen("TEL;CELL:", rec.mobilePhone);
    case CardDay => IsoDateNoOpen(CardDate(rec, now));
    case HomepageUrl => LineNoOpen("URL;WORK:", config.homepageUrl);
    case Source =>
      if !IsNullOrEmpty(config.sourcePath) {
        NoOpenConcat("SOURCE:", config.sourcePath.value);
        NoOpenConcat("SOURCE:" + config.sourcePath.value, "/api/VCardDownload?id=");
        NoOpenConcat("SOURCE:" + config.sourcePath.value + "/api/VCardDownload?id=", id);
      }
    case Photo =>
      assert NoOpen(OrEmpty(nf[2]));
      LineNoOpen("PHOTO;JPEG;ENCODING=BASE64:", rec.photo);
  }

  lemma CleanCard(rec: VCardData, id: string, config: DownloadConfig, now: Date)
    requires PlainInputs(rec, id, config)
    ensures CleanSubstitutions(Substitutions(rec, id, config, now))
  {
    var subs := Substitutions(rec, id, config, now);
    forall i | 0 <= i < |subs|
      ensures BracketFree(subs[i].name) && NoOpen(OrEmpty(subs[i].value))
    {
      NameBracketFree(ReplaceOrder[i]);
      ReplacementNoOpen(rec, id, config, now, ReplaceOrder[i]);
    }
  }

  // ---------------------------------------------------------------------------
  // The served card
  // ---------------------------------------------------------------------------

  /** A card template: literal text and placeholders. */
  datatype CardPiece = Text(text: string) | Field(placeholder: Placeholder)

  function PieceOf(cp: CardPiece): Piece {
    match cp
    case Text(t) => Lit(t)
    case Field(p) => Hole(NameOf(p))
  }

  /** The template's pieces, placeholders written as their tokens. */
  function TemplatePieces(cps: seq<CardPiece>): (ps: seq<Piece>)
    ensures |ps| == |cps|
    ensures forall i :: 0 <= i < |cps| ==> ps[i] == PieceOf(cps[i])
  {
    seq(|cps|, i requires 0 <= i < |cps| => PieceOf(cps[i]))
  }

  /** The card the template describes: its text with every placeholder's card value in place. */
  function CardText(cps: seq<CardPiece>, rec: VCardData, id: string, config: DownloadConfig, now: Date): string
    decreases |cps|
  {
    if |cps| == 0 then ""
    else
      (match cps[0] case Text(t) => t case Field(p) => CardValue(rec, id, config, now, p))
      + CardText(cps[1..], rec, id, config, now)
  }

  /** The template's literal text holds no '['. */
  predicate PlainTemplate(cps: seq<CardPiece>) {
    forall i :: 0 <= i < |cps| ==> cps[i].Text? ==> NoOpen(cps[i].text)
  }

  lemma {:induction false} FilledCard(cps: seq<CardPiece>, rec: VCardData, id: string, config: DownloadConfig, now: Date)
    ensures Join(Fill(TemplatePieces(cps), Substitutions(rec, id, config, now))) == CardText(cps, rec, id, config, now)
    decreases |cps|
  {
    if |cps| > 0 {
      var subs := Substitutions(rec, id, config, now);
      var ps := Fill(TemplatePieces(cps), subs);
      assert ps[1..] == Fill(TemplatePieces(cps[1..]), subs);
      FilledCard(cps[1..], rec, id, config, now);
      match cps[0]
      case Text(t) =>
      case Field(p) => SubstitutionsMeanCard(rec, id, config, now, p);
    }
  }

  /**
   * A served card is the template with every placeholder replaced by its
   * card value, and no placeholder token remains in it, provided the
   * template's literal text and the inserted values hold no '['.
   */
  lemma CardIsFilled(id: Option<string>, isValidGuid: string -> bool, store: Option<Store>,
                     cps: seq<CardPiece>, config: DownloadConfig, now: Date)
    requires PlainTemplate(cps)
    requires !IsNullOrWhiteSpace(id) && isValidGuid(id.value) && store.Some?
    requires var rec := Lookup(store.value, id.value);
      rec.Some? && !IsNullOrWhiteSpace(Some(rec.value.displayName)) && PlainInputs(rec.value, id.value, config)
    ensures var r := Download(id, isValidGuid, store, Join(TemplatePieces(cps)), config, now);
      && r.body == CardText(cps, Lookup(store.value, id.value).value, id.value, config, now)
      && forall name :: !Occurs(r.body, Token(name))
  {
    var rec := Lookup(store.value, id.value).value;
    var subs := Substitutions(rec, id.value, config, now);
    var ps := TemplatePieces(cps);
    CleanCard(rec, id.value, config, now);
    assert WellFormed(ps) by {
      forall i | 0 <= i < |ps| && ps[i].Hole?
        ensures BracketFree(ps[i].name)
      {
        NameBracketFree(cps[i].placeholder);
      }
    }
    assert Covers(ps, subs) by {
      forall i | 0 <= i < |ps| && ps[i].Hole?
        ensures exists j :: 0 <= j < |subs| && subs[j].name == ps[i].name
      {
        var j := Position(cps[i].placeholder);
        assert subs[j].name == ps[i].name;
      }
    }
    RenderFills(ps, subs);
    NoPlaceholderRemains(ps, subs);
    FilledCard(cps, rec, id.value, config, now);
  }

  /** The read path: a rejected id is answered before the table is read, whatever it holds. */
  lemma BadRequestIgnoresStore(id: Option<string>, isValidGuid: string -> bool, store1: Option<Store>,
                               store2: Option<Store>, template: string, config: DownloadConfig, now: Date)
    requires IsNullOrWhiteSpace(id) || !isValidGuid(id.value)
    ensures Download(id, isValidGuid, store1, template, config, now)
         == Download(id, isValidGuid, store2, template, config, now)
         == BadRequest(NoValidIdMessage)
  {
  }

  /** A stored record for Ada Lovelace is served as "Ada.Lovelace.vcf". */
  lemma FileNameExample(id: string, isValidGuid: string -> bool, rec: VCardData, template: string, config: DownloadConfig, now: Date)
    requires id != "" && id[0] == '0' && isValidGuid(id)
    requires rec.rowKey == id && rec.givenName == "Ada" && rec.surname == "Lovelace" && rec.displayName == "Ada Lovelace"
    ensures var r := Download(Some(id), isValidGuid, Some([rec]), template, config, now);
      r.FileResult? && r.fileName == "Ada.Lovelace.vcf"
  {
    assert !IsNullOrWhiteSpace(Some(id)) by { assert !IsWhiteSpace(id[0]); }
    assert !IsNullOrWhiteSpace(Some(rec.displayName)) by {
      assert rec.displayName[0] == 'A' && !IsWhiteSpace('A');
    }
    assert Lookup([rec], id) == Some(rec);
    assert FileName(rec) == "Ada.Lovelace.vcf";
  }
}
