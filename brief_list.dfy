/** `GET /api/brief/list`: the newest briefs, as many as the `limit` query
    parameter asks for within fixed bounds. */
module BriefList {
  import opened Wrappers

  const DefaultLimit := 10
  const MinLimit := 1
  const MaxLimit := 50

  /** `Number(searchParams.get("limit") || 10)`: `param` is the query value
      (`None` when absent) and `toNumber` stands for `Number` on a string. */
  function RequestedLimit(param: Option<string>, toNumber: string -> int): (n: int)
    ensures !Truthy(param) ==> n == DefaultLimit
    ensures Truthy(param) ==> n == toNumber(param.value)
  {
    if Truthy(param) then toNumber(param.value) else DefaultLimit
  }

  /** `Math.min(Math.max(limit, 1), 50)` on integers. */
  function Clamp(n: int): (r: int)
    ensures MinLimit <= r <= MaxLimit
    ensures MinLimit <= n <= MaxLimit ==> r == n
    ensures n < MinLimit ==> r == MinLimit
    ensures n > MaxLimit ==> r == MaxLimit
  {
    if n < MinLimit then MinLimit else if n > MaxLimit then MaxLimit else n
  }

  /** Clamping a clamped limit changes nothing. */
  lemma ClampIdempotent(n: int)
    ensures Clamp(Clamp(n)) == Clamp(n)
  {
  }

  /** Clamping never reorders two requests. */
  lemma ClampMonotone(m: int, n: int)
    requires m <= n
    ensures Clamp(m) <= Clamp(n)
  {
  }

  /** The number of rows the store is asked for. */
  function EffectiveLimit(param: Option<string>, toNumber: string -> int): (n: int)
    ensures MinLimit <= n <= MaxLimit
    ensures !Truthy(param) ==> n == DefaultLimit
    ensures Truthy(param) && MinLimit <= toNumber(param.value) <= MaxLimit ==> n == toNumber(param.value)
  {
    Clamp(RequestedLimit(param, toNumber))
  }

  /** The JSON answer: `{ok: false, error}` with status 500, or `{ok: true, rows}`. */
  datatype ListReply<Row> = Failed(status: int, error: string) | Listed(status: int, rows: seq<Row>)

  /** The answer for what the store returned: an error message, or the rows. */
  function Reply<Row>(dbError: Option<string>, rows: seq<Row>): (r: ListReply<Row>)
    ensures dbError.Some? <==> r.Failed?
    ensures r.Failed? ==> r.status == 500 && r.error == dbError.value
    ensures r.Listed? ==> r.status == 200 && r.rows == rows
  {
    match dbError
    case Some(e) => Failed(500, e)
    case None => Listed(200, rows)
  }
}
