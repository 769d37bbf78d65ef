/**
 * The statistics service as the adapter sees it: one HTTP answer per request, already parsed,
 * and the rules by which the adapter turns an answer into a rejection.
 */
module Upstream {
  import opened Wrappers

  /**
   * What the HTTP library hands to the adapter's callback. On a transport error the library
   * passes no response object at all; otherwise there is a status code, the raw body text and
   * the body as parsed into the shape the adapter reads.
   */
  datatype Fetched<T> =
    | NoResponse(err: string)
    | Answered(statusCode: int, rawBody: string, body: T)

  /**
   * The object a step rejects with, or the handler passes as the callback's error: status code,
   * job run id, `data` (absent for the "no games" reply) and `error` (null when None).
   * Its `status` is always "errored" and `pending` always false.
   */
  datatype ErrorEnvelope = ErrorEnvelope(statusCode: int, jobRunId: string, data: Option<string>, error: Option<string>)

  /** How a step ends when it does not produce its value. */
  datatype Fault =
    | Rejected(envelope: ErrorEnvelope)  // the step's promise rejects with this envelope
    | Thrown(exception: string)          // an exception escapes inside the HTTP callback; nothing catches it

  const API_ERROR := "API error - check request parameters and try again."

  /** Reading `response.statusCode` when the library passed no response. */
  const NO_RESPONSE_OBJECT := "TypeError: Cannot read properties of undefined (reading 'statusCode')"

  /**
   * `response.statusCode > "200"`: JavaScript converts the string operand to the number 200,
   * so the comparison is numeric.
   */
  predicate StatusAbove200(statusCode: int) {
    statusCode > 200
  }

  /** The failure test `err || response.statusCode > "200"` for an answer that reached the callback. */
  predicate Failed<T>(resp: Fetched<T>)
    requires resp.Answered?
  {
    StatusAbove200(resp.statusCode)
  }

  /**
   * `!response.statusCode > "200"`: the negation applies to the status code alone, giving a
   * boolean that JavaScript converts to 0 or 1 before comparing it with 200.
   */
  function ParsedBodyBranch(statusCode: int): (taken: bool)
    ensures !taken
  {
    var negated := if statusCode == 0 then 1 else 0;
    negated > 200
  }

  /** The envelope a fetch step rejects with when the service answered with a failing status. */
  function Rejection<T>(jobRunId: string, resp: Fetched<T>): (e: ErrorEnvelope)
    requires resp.Answered? && Failed(resp)
    ensures e.statusCode == resp.statusCode && e.statusCode > 200 && e.jobRunId == jobRunId
    ensures e.data == Some(API_ERROR) && e.error.None?
  {
    var body := resp.rawBody;
    var data := if ParsedBodyBranch(resp.statusCode) then body else API_ERROR;
    ErrorEnvelope(resp.statusCode, jobRunId, Some(data), None)
  }
}
