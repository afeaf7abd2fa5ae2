/**
 * The response envelope every handler sends: `{status, message, data}`.
 * Outcome is carried by `status`, never by the transport.
 */
module Util {
  import opened Schema

  datatype Status = Success | Failed

  /**
   * The `err` argument when it is truthy: the empty object `{}` the
   * validation paths pass, or an error reported by the store.
   */
  datatype ErrValue = EmptyErrObject | DbError(error: StoreError)

  datatype Envelope = Envelope(status: Status, message: string, data: Payload)

  /**
   * What a handler does at the end: call finalizeResponse with an envelope,
   * or throw inside the query callback before calling it (reading `id` of a
   * user that was never resolved), so that no envelope is built.
   */
  datatype Reply = Sent(envelope: Envelope) | Thrown

  const SuccessMessage := "success"

  /** finalizeResponse(err, errMessage, res, responseDetails), without the `res.json` sink. */
  function FinalizeResponse(err: Option<ErrValue>, errMessage: Option<string>, responseDetails: Option<Payload>)
    : (e: Envelope)
    ensures e.status == Failed <==> err.Some?
    ensures e.status == Success <==> err.None?
    ensures Truthy(errMessage) ==> e.message == errMessage.value
    ensures !Truthy(errMessage) ==> e.message == SuccessMessage
    ensures e.message != ""
    ensures responseDetails.Some? ==> e.data == responseDetails.value
    ensures responseDetails.None? ==> e.data == EmptyObject
  {
    Envelope(
      if err.Some? then Failed else Success,
      if Truthy(errMessage) then errMessage.value else SuccessMessage,
      if responseDetails.Some? then responseDetails.value else EmptyObject)
  }

  /** A validation failure: `finalizeResponse({}, message, res, {})`. */
  function Rejected(message: string): (e: Envelope)
    ensures e.status == Failed && e.data == EmptyObject
    ensures message != "" ==> e.message == message
  {
    FinalizeResponse(Some(EmptyErrObject), Some(message), Some(EmptyObject))
  }

  /** A store failure: `finalizeResponse(err, message, res, null)`. */
  function StoreFailure(error: StoreError, message: string): (e: Envelope)
    ensures e.status == Failed && e.data == EmptyObject
    ensures message != "" ==> e.message == message
  {
    FinalizeResponse(Some(DbError(error)), Some(message), None)
  }

  /** A lookup that found nothing: `finalizeResponse(null, message, res, {})`. */
  function NotFound(message: string): (e: Envelope)
    ensures e.status == Success && e.data == EmptyObject
    ensures message != "" ==> e.message == message
  {
    FinalizeResponse(None, Some(message), Some(EmptyObject))
  }

  /** A success: `finalizeResponse(null, null, res, details)`. */
  function Succeeded(details: Payload): (e: Envelope)
    ensures e == Envelope(Success, SuccessMessage, details)
  {
    FinalizeResponse(None, None, Some(details))
  }
}
