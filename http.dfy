/** The responses the serverless handlers produce: a status code with a body, or an exception
    that escapes the handler (the platform then answers with its own error). */
module Http {
  import opened Wrappers
  import opened Schema
  import opened Auth

  /** A wrestler as the list and the roster screens receive it. */
  datatype WrestlerItem = WrestlerItem(
    id: nat,
    firstName: Option<string>,
    lastName: Option<string>,
    name: string,
    weightClass: Option<int>,
    sex: Option<string>)

  /** A weight record joined with its wrestler, as the history endpoint returns it. */
  datatype WeightItem = WeightItem(
    id: nat,
    wrestlerId: nat,
    name: string,
    date: Option<string>,
    weight: int,
    kind: Option<string>)

  /** The public part of a school returned after login; `code` carries the property name the
      handler uses for the login code. */
  datatype Profile = Profile(
    id: nat,
    code: CodeClaim,
    name: Option<string>,
    primaryColor: Option<string>,
    secondaryColor: Option<string>)

  /** The columns of a school a settings update returns. */
  datatype SchoolSettings = SchoolSettings(
    id: nat,
    name: Option<string>,
    primaryColor: Option<string>,
    secondaryColor: Option<string>)

  /** A school as the administrator's list shows it: every column but the password hash. */
  datatype SchoolListing = SchoolListing(
    id: nat,
    name: Option<string>,
    loginCode: Option<string>,
    primaryColor: Option<string>,
    secondaryColor: Option<string>)

  /** The response bodies, one per JSON shape (or plain text) the handlers send. */
  datatype Body =
    | ErrorJson(error: string)
    | PlainText(text: string)
    | SuccessJson
    | WrestlerCreated(id: nat, firstName: Option<string>, lastName: Option<string>)
    | Roster(wrestlers: seq<WrestlerItem>)
    | WrestlerUpdated(id: nat, firstName: Option<string>, lastName: Option<string>,
                      weightClass: Option<int>, sex: Option<string>)
    | History(weights: seq<WeightItem>)
    | SettingsSaved(school: Option<SchoolSettings>)
    | LoggedIn(token: string, profile: Profile)
    | TokenValid(payload: Claims)
    | AdminToken(token: string)
    | SchoolCreated
    | SchoolList(schools: seq<SchoolListing>)

  datatype Reply = Answer(status: nat, body: Body) | Thrown(message: string)

  function Error(status: nat, message: string): Reply {
    Answer(status, ErrorJson(message))
  }
}
