/**
 * The stored record (`VCardDataModel`) and the directory user it is
 * projected from (the selected attributes of a Graph `User`).
 */
module Records {
  import opened Common
  import opened IsoDate

  /** The single partition every record is written to. */
  const DataPartition: string := "Data"

  /**
   * One row of the `VCardData` table. Text properties declared `string` are
   * plain strings; the three declared `string?` may be null.
   * `Timestamp` is assigned by the store and may be absent.
   */
  datatype VCardData = VCardData(
    partitionKey: string,
    rowKey: string,
    surname: string,
    givenName: string,
    displayName: string,
    department: string,
    jobTitle: string,
    companyName: string,
    telephoneNumber: Option<string>,
    mobilePhone: Option<string>,
    photo: Option<string>,
    streetAddress: string,
    city: string,
    state: string,
    postalCode: string,
    country: string,
    mail: string,
    userPrincipalName: string,
    timestamp: Option<Date>)

  /** The thirteen non-nullable text properties, surname through user principal name. */
  function TextFields(r: VCardData): seq<string> {
    [r.surname, r.givenName, r.displayName, r.department, r.jobTitle, r.companyName,
     r.streetAddress, r.city, r.state, r.postalCode, r.country, r.mail, r.userPrincipalName]
  }

  /** The three nullable text properties. */
  function NullableFields(r: VCardData): seq<Option<string>> {
    [r.telephoneNumber, r.mobilePhone, r.photo]
  }

  /** `new VCardDataModel()`: every property at its declared initial value. */
  function NewRecord(): (r: VCardData)
    ensures r.partitionKey == DataPartition && r.rowKey == ""
    ensures forall i :: 0 <= i < |TextFields(r)| ==> TextFields(r)[i] == ""
    ensures forall i :: 0 <= i < |NullableFields(r)| ==> NullableFields(r)[i] == Some("")
    ensures r.timestamp.None?
  {
    VCardData(DataPartition, "", "", "", "", "", "", "", Some(""), Some(""), Some(""),
              "", "", "", "", "", "", "", None)
  }

  /**
   * A directory user with the properties the sync selects. Every text
   * property may be absent (null); `businessPhones` is a possibly null list.
   */
  datatype User = User(
    id: string,
    surname: Option<string>,
    givenName: Option<string>,
    displayName: Option<string>,
    department: Option<string>,
    jobTitle: Option<string>,
    companyName: Option<string>,
    businessPhones: Option<seq<string>>,
    mobilePhone: Option<string>,
    streetAddress: Option<string>,
    city: Option<string>,
    state: Option<string>,
    postalCode: Option<string>,
    country: Option<string>,
    mail: Option<string>,
    userPrincipalName: Option<string>)

  /** The user's text properties, in the order of `TextFields`. */
  function SourceTextFields(u: User): seq<Option<string>> {
    [u.surname, u.givenName, u.displayName, u.department, u.jobTitle, u.companyName,
     u.streetAddress, u.city, u.state, u.postalCode, u.country, u.mail, u.userPrincipalName]
  }
}
