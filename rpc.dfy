/** The procedure layer's context and error signals (trpc/init.ts and TRPCError). */
module Rpc {
  import opened Wrappers

  /** `TRPCError` codes the routers raise; any other exception thrown inside a procedure
      reaches the client as INTERNAL_SERVER_ERROR. */
  datatype ErrorCode = Unauthorized | NotFound | InternalServerError

  datatype Result<+T> = Ok(value: T) | Err(code: ErrorCode)

  /** The caller, as the id of the signed-in user (`ctx.user?.id`), or `None` without a session. */
  type Caller = Option<string>

  /** `!ctx.user?.id` is false: a user is present and its id is a non-empty string. */
  predicate HasUserId(caller: Caller) {
    caller.Some? && caller.value != ""
  }
}
