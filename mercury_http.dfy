/**
 * The Mercury transactions endpoint as the importer sees it: one GET per offset, answered with
 * an HTTP status and the decoded `transactions` list. The server is a function of the offset;
 * the client keeps the log of the offsets it was asked for.
 */
module MercuryHttp {
  import opened Wrappers

  /** The `amount` object of a Mercury record; `value` is the exact decimal `D()` makes of it. */
  datatype RawAmount = RawAmount(value: real, currency: string)

  /** One record of the `transactions` list; `merchant` is `None` when the JSON holds null. */
  datatype RawTxn = RawTxn(
    id: string,
    date: string,
    amount: RawAmount,
    description: string,
    merchant: Option<string>)

  datatype Response = Response(status: nat, transactions: seq<RawTxn>)

  /** `raise_for_status` raises for client errors (4xx) and server errors (5xx). */
  predicate RaisesForStatus(status: nat)
  {
    400 <= status < 600
  }

  /** The transport: `respond(offset)` is the server's answer to the request at that offset. */
  class MercuryApi {
    const respond: nat -> Response
    var requested: seq<nat>

    constructor (respond: nat -> Response)
      ensures this.respond == respond && requested == []
    {
      this.respond := respond;
      requested := [];
    }

    method Get(offset: nat) returns (resp: Response)
      modifies this
      ensures resp == respond(offset)
      ensures requested == old(requested) + [offset]
    {
      resp := respond(offset);
      requested := requested + [offset];
    }
  }
}
