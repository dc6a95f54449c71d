/** The parsed request record (HttpRequest in the source). */
module HttpRequest {

  /** `requestParam` and `directoryName` stay empty after parsing; the router
      fills them in on the copy it hands to an action. */
  datatype Request = Request(
    httpMethod: string,
    path: string,
    requestParam: string,
    headers: map<string, string>,
    directoryName: string,
    body: string)

  /** What a default-constructed HttpRequest holds. */
  const EMPTY_REQUEST: Request := Request("", "", "", map[], "", "")
}
