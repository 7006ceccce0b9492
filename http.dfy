/** What a handler writes to the response: cookies, then one way of answering. */
module Http {
  import Js

  /** `res.cookie(name, value, { maxAge, httpOnly, secure })`. */
  datatype Cookie = Cookie(name: string, value: string, maxAge: int, httpOnly: bool, secure: bool)

  /** The cookie written to clear `name`: empty, `maxAge` 0, `httpOnly`. */
  function ClearCookie(name: string, secure: bool): (c: Cookie)
    ensures c.name == name && c.value == "" && c.maxAge == 0 && c.httpOnly
  {
    Cookie(name, "", 0, true, secure)
  }

  datatype Response =
      /** `res.redirect([status,] location)`; Express's default status is 302. */
    | Redirect(status: nat, location: string)
      /** `res.status(status).send(body)`. */
    | Send(status: nat, body: string)
      /** `res.status(status).json(body)`. */
    | Json(status: nat, data: Js.JsValue)
      /** An exception escaped the handler; the framework's default handler answers 500. */
    | Uncaught

  datatype Reply = Reply(cookies: seq<Cookie>, response: Response)
}
