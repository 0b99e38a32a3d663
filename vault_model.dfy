/**
 * The record shapes of a Bitwarden export as the engine sees them.
 * Every C# nullable (`string?`, `List<T>?`, `Login?`, `DateTime?`, `int?`) is an
 * `Option`; the engine never inspects Card, Identity or SecureNote, it only
 * carries them along.
 */
module VaultModel {
  import opened Wrappers

  /** A point in time, in ticks; `DateTime.MinValue` is tick 0, so every date is at least `MinDate`. */
  type Date = nat

  const MinDate: Date := 0

  /** `date ?? DateTime.MinValue`. */
  function DateValue(d: Option<Date>): Date {
    d.GetOr(MinDate)
  }

  datatype Folder = Folder(id: Option<string>, name: Option<string>)

  datatype UriObj = UriObj(uriMatch: Option<string>, uri: Option<string>)

  datatype Field = Field(name: Option<string>, value: Option<string>, fieldType: int, linkedId: Option<int>)

  datatype PasswordHistoryEntry = PasswordHistoryEntry(lastUsedDate: Option<Date>, password: Option<string>)

  datatype Login = Login(
    uris: Option<seq<UriObj>>,
    username: Option<string>,
    password: Option<string>,
    totp: Option<string>)

  datatype SecureNote = SecureNote(noteType: int)

  datatype Card = Card(
    cardholderName: Option<string>,
    brand: Option<string>,
    number: Option<string>,
    expMonth: Option<string>,
    expYear: Option<string>,
    code: Option<string>)

  datatype Identity = Identity(
    title: Option<string>,
    firstName: Option<string>,
    middleName: Option<string>,
    lastName: Option<string>,
    address1: Option<string>,
    address2: Option<string>,
    address3: Option<string>,
    city: Option<string>,
    state: Option<string>,
    postalCode: Option<string>,
    country: Option<string>,
    company: Option<string>,
    email: Option<string>,
    phone: Option<string>,
    ssn: Option<string>,
    username: Option<string>,
    passportNumber: Option<string>,
    licenseNumber: Option<string>)

  datatype Item = Item(
    id: Option<string>,
    organizationId: Option<string>,
    folderId: Option<string>,
    itemType: int,
    reprompt: int,
    name: Option<string>,
    notes: Option<string>,
    favorite: bool,
    login: Option<Login>,
    fields: Option<seq<Field>>,
    collectionIds: Option<seq<string>>,
    passwordHistory: Option<seq<PasswordHistoryEntry>>,
    revisionDate: Option<Date>,
    creationDate: Option<Date>,
    deletedDate: Option<Date>,
    archivedDate: Option<Date>,
    secureNote: Option<SecureNote>,
    card: Option<Card>,
    identity: Option<Identity>)

  /** The exported vault. The engine and the interactive session replace its two lists. */
  class Vault {
    var folders: seq<Folder>
    var items: seq<Option<Item>>

    constructor (folders: seq<Folder>, items: seq<Option<Item>>)
      ensures this.folders == folders && this.items == items
    {
      this.folders := folders;
      this.items := items;
    }
  }
}
