/** The transaction record and the pure pieces both servers share: create
    validation and the initial record, the status projection, the
    classification of a callback and the acknowledgment it earns, and the
    record update the store-backed server applies. */
module Transactions {
  import opened Wrappers
  import opened JsValues

  /** `parseFloat(x)`: floating point is not modelled; an amount records
      which raw value it was parsed from. */
  datatype Amount = ParsedFrom(raw: Option<Value>)

  /** The values the `status` field takes. */
  datatype Status = Pending | Completed | Failed

  function StatusName(s: Status): string {
    match s
    case Pending => "pending"
    case Completed => "completed"
    case Failed => "failed"
  }

  /** The record stored in Redis. `completedAt`, `failedAt` and
      `cmiResponse` are absent until a callback sets them. */
  datatype Transaction = Transaction(
    id: string,
    amount: Amount,
    email: Value,
    phone: Value,
    name: Value,
    description: Value,
    status: Status,
    createdAt: string,
    completedAt: Option<string>,
    failedAt: Option<string>,
    cmiResponse: Option<Form>)

  /** An HTTP reply: a status code and a body. */
  datatype Reply = Reply(code: nat, body: string)

  /** The fields `/api/payments/create` destructures from its body. */
  datatype CreateRequest = CreateRequest(
    amount: Option<Value>,
    email: Option<Value>,
    phone: Option<Value>,
    name: Option<Value>,
    description: Option<Value>)

  function CreateRequestOf(body: Form): CreateRequest {
    CreateRequest(Field(body, "amount"), Field(body, "email"), Field(body, "phone"),
                  Field(body, "name"), Field(body, "description"))
  }

  /** `!amount || !email || !phone || !name` is false. */
  predicate HasRequiredFields(req: CreateRequest) {
    Truthy(req.amount) && Truthy(req.email) && Truthy(req.phone) && Truthy(req.name)
  }

  /** `TXN_${Date.now()}_${suffix}`, with the clock reading and the random
      suffix given as text. */
  function TransactionId(millis: string, suffix: string): string {
    "TXN_" + millis + "_" + suffix
  }

  /** The record the create handler stores. */
  function NewTransaction(req: CreateRequest, id: string, createdAt: string): (t: Transaction)
    requires HasRequiredFields(req)
    ensures t.id == id && t.status == Pending && t.createdAt == createdAt
    ensures t.amount == ParsedFrom(req.amount)
    ensures Some(t.email) == req.email && Some(t.phone) == req.phone && Some(t.name) == req.name
    ensures Truthy(req.description) ==> Some(t.description) == req.description
    ensures !Truthy(req.description) ==> t.description == Str("Payment")
    ensures t.completedAt.None? && t.failedAt.None? && t.cmiResponse.None?
  {
    Transaction(id, ParsedFrom(req.amount), req.email.value, req.phone.value, req.name.value,
                (if Truthy(req.description) then req.description else Some(Str("Payment"))).value,
                Pending, createdAt, None, None, None)
  }

  /** The reply to a create request, apart from the payment form, which the
      gateway's SDK produces. */
  datatype CreateReply = Created(transactionId: string) | BadRequest(error: string)

  /** Validation shared by both servers. */
  function CreateReplyFor(req: CreateRequest, id: string): (r: CreateReply)
    ensures r.BadRequest? <==> !HasRequiredFields(req)
    ensures r.BadRequest? ==> r.error == "Missing required fields"
    ensures r.Created? ==> r.transactionId == id
  {
    if HasRequiredFields(req) then Created(id) else BadRequest("Missing required fields")
  }

  /** The body of `/api/payments/status/:transactionId`. */
  datatype StatusView = StatusView(
    transactionId: string,
    status: Status,
    amount: Amount,
    createdAt: string,
    completedAt: Option<string>,
    failedAt: Option<string>)

  function StatusProjection(t: Transaction): (v: StatusView)
    ensures v.transactionId == t.id && v.status == t.status && v.amount == t.amount
    ensures v.createdAt == t.createdAt && v.completedAt == t.completedAt && v.failedAt == t.failedAt
  {
    StatusView(t.id, t.status, t.amount, t.createdAt, t.completedAt, t.failedAt)
  }

  /** The transaction a callback names: `formData.ReturnOid || formData.oid`. */
  function CallbackId(form: Form): Option<Value> {
    Or(Field(form, "ReturnOid"), Field(form, "oid"))
  }

  /** How a callback is classified. */
  datatype Outcome =
    | Approved     // hash valid, ProcReturnCode "00"
    | Declined     // hash valid, any other ProcReturnCode
    | HashInvalid  // hash check failed

  function Classify(hashValid: bool, procReturnCode: Option<Value>): (o: Outcome)
    ensures o == HashInvalid <==> !hashValid
    ensures o == Approved <==> hashValid && procReturnCode == Some(Str("00"))
  {
    if !hashValid then HashInvalid
    else if procReturnCode == Some(Str("00")) then Approved
    else Declined
  }

  /** The literal sent back to the gateway. */
  function Ack(o: Outcome): (r: string)
    ensures r == "ACTION=POSTAUTH" <==> o == Approved
    ensures r == "FAILED" <==> o == HashInvalid
  {
    match o
    case Approved => "ACTION=POSTAUTH"
    case Declined => "APPROVED"
    case HashInvalid => "FAILED"
  }

  /** The `status` argument of the notification. */
  function NotifyLabel(o: Outcome): string {
    match o
    case Approved => "success"
    case Declined => "failed"
    case HashInvalid => "security_failed"
  }

  /** The classification the gateway sees and the one the consumer sees are
      both faithful: each outcome has its own acknowledgment and its own
      label, and only a valid hash with code "00" is acknowledged with
      `ACTION=POSTAUTH`. */
  lemma ClassificationTable(hashValid: bool, code: Option<Value>)
    ensures Ack(Classify(hashValid, code)) == "ACTION=POSTAUTH" <==> hashValid && code == Some(Str("00"))
    ensures Ack(Classify(hashValid, code)) == "APPROVED" <==> hashValid && code != Some(Str("00"))
    ensures Ack(Classify(hashValid, code)) == "FAILED" <==> !hashValid
    ensures NotifyLabel(Classify(hashValid, code)) == "security_failed" <==> !hashValid
  {
  }

  lemma AckInjective(a: Outcome, b: Outcome)
    ensures Ack(a) == Ack(b) ==> a == b
    ensures NotifyLabel(a) == NotifyLabel(b) ==> a == b
  {
    assert "APPROVED"[0] != "FAILED"[0] && "ACTION=POSTAUTH"[1] != "APPROVED"[1];
    assert "success"[0] != "failed"[0] && "failed"[0] != "security_failed"[0];
  }

  /** The record update of the store-backed callback: an approved payment
      is marked completed, anything else failed (an invalid hash too); the
      opposite timestamp is left as it was, and nothing guards against a
      record that already left `pending`. */
  function ApplyOutcome(t: Transaction, o: Outcome, now: string, form: Form): (u: Transaction)
    ensures u.id == t.id && u.amount == t.amount && u.email == t.email && u.phone == t.phone
    ensures u.name == t.name && u.description == t.description && u.createdAt == t.createdAt
    ensures u.cmiResponse == Some(form)
    ensures o == Approved ==> u.status == Completed && u.completedAt == Some(now) && u.failedAt == t.failedAt
    ensures o != Approved ==> u.status == Failed && u.failedAt == Some(now) && u.completedAt == t.completedAt
  {
    match o
    case Approved => t.(status := Completed, completedAt := Some(now), cmiResponse := Some(form))
    case _ => t.(status := Failed, failedAt := Some(now), cmiResponse := Some(form))
  }

  /** No idempotency: a replay re-stamps the timestamp with the later time. */
  lemma ReplayRestamps(t: Transaction, o: Outcome, first: string, second: string, form: Form)
    ensures var u := ApplyOutcome(ApplyOutcome(t, o, first, form), o, second, form);
            (o == Approved ==> u.completedAt == Some(second)) &&
            (o != Approved ==> u.failedAt == Some(second))
  {
  }

  /** A failure followed by an approval leaves both timestamps set. */
  lemma FailedThenCompletedKeepsBoth(t: Transaction, o: Outcome, failedAt: string, completedAt: string, f1: Form, f2: Form)
    requires o != Approved
    ensures var u := ApplyOutcome(ApplyOutcome(t, o, failedAt, f1), Approved, completedAt, f2);
            u.status == Completed && u.failedAt == Some(failedAt) && u.completedAt == Some(completedAt)
  {
  }

  /** The payload the store-backed server sends to the consumer. */
  datatype Notification = Notification(
    transactionId: string,
    amount: Amount,
    email: Value,
    name: Value,
    phone: Value,
    description: Value,
    status: string,
    completedAt: Option<string>,
    failedAt: Option<string>,
    cmiResponse: Option<Form>)

  function NotificationOf(t: Transaction, statusLabel: string): (n: Notification)
    ensures n.transactionId == t.id && n.amount == t.amount && n.status == statusLabel
    ensures n.email == t.email && n.name == t.name && n.phone == t.phone && n.description == t.description
    ensures n.completedAt == t.completedAt && n.failedAt == t.failedAt && n.cmiResponse == t.cmiResponse
  {
    Notification(t.id, t.amount, t.email, t.name, t.phone, t.description, statusLabel,
                 t.completedAt, t.failedAt, t.cmiResponse)
  }
}
