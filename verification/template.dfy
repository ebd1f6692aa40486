/**
 * Placeholder substitution in the card template: `String.Replace(old, new)`
 * applied once per placeholder, in a fixed order.
 *
 * `ReplaceAll` is .NET's ordinal `String.Replace`: it scans left to right and
 * replaces every non-overlapping occurrence; a null new value deletes the
 * token. `Render` folds it over a list of substitutions. A template is
 * described by its `Piece`s (literal text and `[name]` holes); for a
 * well-formed template and bracket-free values, `Render` fills every hole
 * with the value of the first substitution of that name (`RenderFills`) and
 * leaves no placeholder behind (`NoPlaceholderRemains`).
 */
module Template {
  import opened Common

  // ---------------------------------------------------------------------------
  // String.Replace
  // ---------------------------------------------------------------------------

  /** `pat` occurs somewhere in `s`. */
  predicate Occurs(s: string, pat: string)
    decreases |s|
  {
    |pat| <= |s| && (s[..|pat|] == pat || (|s| > 0 && Occurs(s[1..], pat)))
  }

  /** `s.Replace(pat, rep)`: every occurrence of `pat`, leftmost first and without overlap, becomes `rep`. */
  function ReplaceAll(s: string, pat: string, rep: string): (r: string)
    requires |pat| > 0
    ensures !Occurs(s, pat) ==> r == s
    decreases |s|
  {
    if |s| < |pat| then s
    else if s[..|pat|] == pat then
      rep + ReplaceAll(s[|pat|..], pat, rep)
    else
      [s[0]] + ReplaceAll(s[1..], pat, rep)
  }

  lemma ReplaceShort(s: string, pat: string, rep: string)
    requires 0 < |pat| && |s| < |pat|
    ensures ReplaceAll(s, pat, rep) == s
  {
  }

  /** The placeholder token for `name`. */
  function Token(name: string): string {
    "[" + name + "]"
  }

  /** One substitution: the placeholder's name and the value it is replaced with (null deletes the token). */
  datatype Substitution = Substitution(name: string, value: Option<string>)

  /**
   * The template after every substitution, applied in order. A template
   * without '[' holds no token, so it comes back unchanged.
   */
  function Render(t: string, subs: seq<Substitution>): (r: string)
    ensures NoOpen(t) ==> r == t
    decreases |subs|
  {
    if |subs| == 0 then t
    else
      var u := ReplaceAll(t, Token(subs[0].name), OrEmpty(subs[0].value));
      assert NoOpen(t) ==> u == t by {
        if NoOpen(t) { NoOpenNoToken(t, subs[0].name); }
      }
      Render(u, subs[1..])
  }

  /**
   * Substitutions also act on the values earlier ones inserted: a surname
   * of "[givenName]" is itself replaced by the given name.
   */
  lemma ValueIsSubstitutedAgain()
    ensures Render(Token("surname"), [Substitution("surname", Some("[givenName]")),
                                      Substitution("givenName", Some("Ada"))]) == "Ada"
  {
    var t := ReplaceAll(Token("surname"), Token("surname"), "[givenName]");
    assert Token("surname")[|Token("surname")|..] == "";
    assert t == "[givenName]" + ReplaceAll("", Token("surname"), "[givenName]");
    assert t == Token("givenName");
    assert Token("givenName")[|Token("givenName")|..] == "";
  }

  /**
   * Replacement does not rescan what it has produced: in "[[upn]upn]" the
   * removal of "[upn]" forms a new "[upn]". A template whose literal text
   * contains '[' can therefore keep a placeholder token.
   */
  lemma ReplacementCanFormToken()
    ensures ReplaceAll("[[upn]upn]", Token("upn"), "") == Token("upn")
  {
    var s := "[[upn]upn]";
    var pat := Token("upn");
    assert s[..|pat|] != pat by { assert s[1] != pat[1]; }
    assert s[1..][..|pat|] == pat;
    var tail := s[1..][|pat|..];
    assert tail == "upn]";
    assert !Occurs(tail, pat);
  }

  // ---------------------------------------------------------------------------
  // Templates as pieces
  // ---------------------------------------------------------------------------

  /** A stretch of literal text, or a placeholder hole `[name]`. */
  datatype Piece = Lit(text: string) | Hole(name: string)

  function PieceText(p: Piece): string {
    match p
    case Lit(text) => text
    case Hole(name) => Token(name)
  }

  function Join(ps: seq<Piece>): string
    decreases |ps|
  {
    if |ps| == 0 then "" else PieceText(ps[0]) + Join(ps[1..])
  }

  predicate NoOpen(s: string) {
    forall i :: 0 <= i < |s| ==> s[i] != '['
  }

  predicate BracketFree(s: string) {
    forall i :: 0 <= i < |s| ==> s[i] != '[' && s[i] != ']'
  }

  /** Literal text holds no '[' and every hole's name is bracket-free. */
  predicate WellFormed(ps: seq<Piece>) {
    forall i :: 0 <= i < |ps| ==>
      match ps[i]
      case Lit(text) => NoOpen(text)
      case Hole(name) => BracketFree(name)
  }

  /** Every substitution names a bracket-free placeholder and inserts no '['. */
  predicate CleanSubstitutions(subs: seq<Substitution>) {
    forall i :: 0 <= i < |subs| ==> BracketFree(subs[i].name) && NoOpen(OrEmpty(subs[i].value))
  }

  /** The value of the first substitution named `name`. */
  function ValueOf(subs: seq<Substitution>, name: string): (r: Option<string>)
    ensures r.Some? <==> exists i :: 0 <= i < |subs| && subs[i].name == name
    ensures r.Some? ==> exists i :: 0 <= i < |subs| && subs[i].name == name && r.value == OrEmpty(subs[i].value)
                                     && forall j :: 0 <= j < i ==> subs[j].name != name
    decreases |subs|
  {
    if |subs| == 0 then None
    else if subs[0].name == name then Some(OrEmpty(subs[0].value))
    else
      var r := ValueOf(subs[1..], name);
      assert forall i :: 1 <= i < |subs| ==> subs[i] == subs[1..][i - 1];
      if r.Some? then
        var i :| 0 <= i < |subs[1..]| && subs[1..][i].name == name && r.value == OrEmpty(subs[1..][i].value)
                  && forall j :: 0 <= j < i ==> subs[1..][j].name != name;
        assert subs[i + 1] == subs[1..][i];
        r
      else
        r
  }

  /** The reference reading of a template: each hole takes the value of the first substitution of its name. */
  function FillPiece(p: Piece, subs: seq<Substitution>): Piece {
    match p
    case Lit(_) => p
    case Hole(name) => if ValueOf(subs, name).Some? then Lit(ValueOf(subs, name).value) else p
  }

  function Fill(ps: seq<Piece>, subs: seq<Substitution>): (r: seq<Piece>)
    ensures |r| == |ps|
    ensures forall i :: 0 <= i < |ps| ==> r[i] == FillPiece(ps[i], subs)
  {
    seq(|ps|, i requires 0 <= i < |ps| => FillPiece(ps[i], subs))
  }

  // ---------------------------------------------------------------------------
  // One replacement on a well-formed template
  // ---------------------------------------------------------------------------

  /** A literal prefix without '[' is passed over untouched. */
  lemma {:induction false} ReplaceSkipsLiteral(lit: string, t: string, pat: string, rep: string)
    requires |pat| > 0 && pat[0] == '[' && NoOpen(lit)
    ensures ReplaceAll(lit + t, pat, rep) == lit + ReplaceAll(t, pat, rep)
    decreases |lit|
  {
    if |lit| == 0 {
      assert lit + t == t;
    } else {
      var s := lit + t;
      assert s[0] == lit[0];
      assert s[1..] == lit[1..] + t;
      ReplaceSkipsLiteral(lit[1..], t, pat, rep);
      if |s| < |pat| {
        ReplaceShort(t, pat, rep);
      } else {
        assert s[..|pat|] != pat by { assert s[..|pat|][0] != pat[0]; }
        calc {
          ReplaceAll(s, pat, rep);
          [s[0]] + ReplaceAll(s[1..], pat, rep);
          [lit[0]] + (lit[1..] + ReplaceAll(t, pat, rep));
          { assert [lit[0]] + lit[1..] == lit; }
          lit + ReplaceAll(t, pat, rep);
        }
      }
    }
  }

  /** Two tokens of bracket-free names start the same only if the names are equal. */
  lemma TokenPrefix(name: string, n: string, t: string)
    requires BracketFree(name) && BracketFree(n) && name != n
    requires |Token(n)| <= |Token(name) + t|
    ensures (Token(name) + t)[..|Token(n)|] != Token(n)
  {
    var s := Token(name) + t;
    var pat := Token(n);
    if |n| < |name| {
      assert s[|n| + 1] == name[|n|];
      assert pat[|n| + 1] == ']';
    } else if |n| > |name| {
      assert s[|name| + 1] == ']';
      assert pat[|name| + 1] == n[|name|];
    } else {
      var i :| 0 <= i < |n| && name[i] != n[i];
      assert s[i + 1] == name[i];
      assert pat[i + 1] == n[i];
    }
  }

  /** The hole `[name]` is replaced when `name` is the replaced placeholder, and passed over otherwise. */
  lemma ReplaceHole(name: string, t: string, n: string, rep: string)
    requires BracketFree(name) && BracketFree(n)
    ensures ReplaceAll(Token(name) + t, Token(n), rep) ==
      (if name == n then rep else Token(name)) + ReplaceAll(t, Token(n), rep)
  {
    var s := Token(name) + t;
    var pat := Token(n);
    if name == n {
      assert s[..|pat|] == pat;
      assert s[|pat|..] == t;
    } else {
      assert s[0] == '[' && s[1..] == (name + "]") + t;
      assert NoOpen(name + "]");
      ReplaceSkipsLiteral(name + "]", t, pat, rep);
      if |s| < |pat| {
        ReplaceShort(t, pat, rep);
      } else {
        TokenPrefix(name, n, t);
        calc {
          ReplaceAll(s, pat, rep);
          [s[0]] + ReplaceAll(s[1..], pat, rep);
          ['['] + ((name + "]") + ReplaceAll(t, pat, rep));
          { assert ['['] + (name + "]") == Token(name); }
          Token(name) + ReplaceAll(t, pat, rep);
        }
      }
    }
  }

  /** Replacing hole `n` with a value. */
  function SubstPiece(p: Piece, n: string, v: string): Piece {
    if p == Hole(n) then Lit(v) else p
  }

  function Subst(ps: seq<Piece>, n: string, v: string): (r: seq<Piece>)
    ensures |r| == |ps|
    ensures forall i :: 0 <= i < |ps| ==> r[i] == SubstPiece(ps[i], n, v)
  {
    seq(|ps|, i requires 0 <= i < |ps| => SubstPiece(ps[i], n, v))
  }

  /** One `Replace` on a well-formed template turns exactly the holes of that name into the value. */
  lemma {:induction false} ReplaceJoin(ps: seq<Piece>, n: string, v: string)
    requires WellFormed(ps) && BracketFree(n)
    ensures ReplaceAll(Join(ps), Token(n), v) == Join(Subst(ps, n, v))
    decreases |ps|
  {
    if |ps| > 0 {
      assert WellFormed(ps[1..]) by {
        forall i | 0 <= i < |ps[1..]| ensures ps[1..][i] == ps[i + 1] { }
      }
      ReplaceJoin(ps[1..], n, v);
      assert Subst(ps, n, v)[1..] == Subst(ps[1..], n, v);
      match ps[0]
      case Lit(text) =>
        assert NoOpen(text);
        ReplaceSkipsLiteral(text, Join(ps[1..]), Token(n), v);
      case Hole(name) =>
        assert BracketFree(name);
        ReplaceHole(name, Join(ps[1..]), n, v);
    }
  }

  lemma SubstWellFormed(ps: seq<Piece>, n: string, v: string)
    requires WellFormed(ps) && NoOpen(v)
    ensures WellFormed(Subst(ps, n, v))
  {
    forall i | 0 <= i < |ps|
      ensures match Subst(ps, n, v)[i]
              case Lit(text) => NoOpen(text)
              case Hole(name) => BracketFree(name)
    {
      assert Subst(ps, n, v)[i] == SubstPiece(ps[i], n, v);
    }
  }

  // ---------------------------------------------------------------------------
  // The whole substitution list
  // ---------------------------------------------------------------------------

  /**
   * Rendering a well-formed template with clean substitutions fills every
   * hole with the value of the first substitution of its name; holes no
   * substitution names are left as they are.
   */
  lemma {:induction false} RenderFills(ps: seq<Piece>, subs: seq<Substitution>)
    requires WellFormed(ps) && CleanSubstitutions(subs)
    ensures Render(Join(ps), subs) == Join(Fill(ps, subs))
    decreases |subs|
  {
    if |subs| == 0 {
      assert Fill(ps, subs) == ps by {
        forall i | 0 <= i < |ps| ensures Fill(ps, subs)[i] == ps[i] {
          match ps[i]
          case Lit(_) =>
          case Hole(name) => assert ValueOf(subs, name).None?;
        }
      }
    } else {
      var n, v := subs[0].name, OrEmpty(subs[0].value);
      assert BracketFree(n) && NoOpen(v);
      var ps' := Subst(ps, n, v);
      ReplaceJoin(ps, n, v);
      SubstWellFormed(ps, n, v);
      assert CleanSubstitutions(subs[1..]) by {
        forall i | 0 <= i < |subs[1..]| ensures subs[1..][i] == subs[i + 1] { }
      }
      RenderFills(ps', subs[1..]);
      assert Fill(ps', subs[1..]) == Fill(ps, subs) by {
        forall i | 0 <= i < |ps| ensures Fill(ps', subs[1..])[i] == Fill(ps, subs)[i] {
          match ps[i]
          case Lit(_) =>
          case Hole(name) =>
            if name != n {
              assert ValueOf(subs, name) == ValueOf(subs[1..], name);
            }
        }
      }
    }
  }

  /** Every hole of the template is named by some substitution. */
  predicate Covers(ps: seq<Piece>, subs: seq<Substitution>) {
    forall i :: 0 <= i < |ps| && ps[i].Hole? ==> exists j :: 0 <= j < |subs| && subs[j].name == ps[i].name
  }

  lemma {:induction false} JoinLiterals(ps: seq<Piece>)
    requires forall i :: 0 <= i < |ps| ==> ps[i].Lit? && NoOpen(ps[i].text)
    ensures NoOpen(Join(ps))
    decreases |ps|
  {
    if |ps| > 0 {
      JoinLiterals(ps[1..]);
      var a, b := PieceText(ps[0]), Join(ps[1..]);
      assert forall i :: 0 <= i < |a + b| ==> (a + b)[i] == if i < |a| then a[i] else b[i - |a|];
    }
  }

  /**
   * No placeholder token survives: when every hole is named by a
   * substitution, the literal text holds no '[' and no inserted value holds
   * one, the rendered card holds no '[' at all.
   */
  lemma NoPlaceholderRemains(ps: seq<Piece>, subs: seq<Substitution>)
    requires WellFormed(ps) && CleanSubstitutions(subs) && Covers(ps, subs)
    ensures NoOpen(Render(Join(ps), subs))
    ensures forall name :: !Occurs(Render(Join(ps), subs), Token(name))
  {
    RenderFills(ps, subs);
    var filled := Fill(ps, subs);
    forall i | 0 <= i < |filled|
      ensures filled[i].Lit? && NoOpen(filled[i].text)
    {
      match ps[i]
      case Lit(_) =>
      case Hole(name) =>
        var j :| 0 <= j < |subs| && subs[j].name == name;
        var v := ValueOf(subs, name);
        var k :| 0 <= k < |subs| && subs[k].name == name && v.value == OrEmpty(subs[k].value);
        assert NoOpen(OrEmpty(subs[k].value));
    }
    JoinLiterals(filled);
    forall name
      ensures !Occurs(Render(Join(ps), subs), Token(name))
    {
      NoOpenNoToken(Render(Join(ps), subs), name);
    }
  }

  lemma {:induction false} NoOpenNoToken(s: string, name: string)
    requires NoOpen(s)
    ensures !Occurs(s, Token(name))
    decreases |s|
  {
    if |Token(name)| <= |s| {
      assert s[..|Token(name)|][0] == s[0];
      NoOpenNoToken(s[1..], name);
    }
  }
}
