/** The JSON responses the API routes send: an HTTP status, the `success`
    flag and the one text field (`message` on success, `error` on failure). */
module Http {
  datatype Reply = Reply(status: nat, success: bool, text: string)

  /** A failed reply with a status and the route's error text. */
  function Failure(status: nat, error: string): Reply {
    Reply(status, false, error)
  }

  /** A successful reply: `NextResponse.json` without a status option sends 200. */
  function Success(message: string): Reply {
    Reply(200, true, message)
  }
}
