/** The store-backed server: records live in Redis under
    `transaction:<id>` for an hour after every write; the callback reads the
    record, verifies the hash, updates the record, writes it back, notifies
    the consumer and acknowledges the gateway. The clock, the store's
    failures and the notification's delivery are inputs. */
module StoreBackedServer {
  import opened Wrappers
  import opened JsValues
  import opened CmiHash
  import opened Transactions

  /** Every `setEx` keeps the record for 3600 seconds. */
  const Ttl: int := 3600

  function StoreKey(id: string): string {
    "transaction:" + id
  }

  lemma StoreKeyInjective(a: string, b: string)
    ensures StoreKey(a) == StoreKey(b) ==> a == b
  {
    if StoreKey(a) == StoreKey(b) {
      var n := |"transaction:"|;
      assert a == StoreKey(a)[n..] && b == StoreKey(b)[n..];
    }
  }

  /** A stored record and the second at which Redis drops it. */
  datatype Entry = Entry(record: Transaction, expiresAt: int)

  /** The record a read at second `now` sees under `key`. */
  function Live(entries: map<string, Entry>, key: string, now: int): (r: Option<Transaction>)
    ensures r.Some? <==> key in entries && now < entries[key].expiresAt
    ensures r.Some? ==> r.value == entries[key].record
  {
    if key in entries && now < entries[key].expiresAt then Some(entries[key].record) else None
  }

  /** A record written at second `now` is read back exactly until its hour
      is over, and the write leaves every other key's reads alone. */
  lemma SetExThenLive(entries: map<string, Entry>, key: string, record: Transaction, now: int, later: int, other: string)
    ensures Live(entries[key := Entry(record, now + Ttl)], key, later) ==
            if later < now + Ttl then Some(record) else None
    ensures other != key ==> Live(entries[key := Entry(record, now + Ttl)], other, later) == Live(entries, other, later)
  {
  }

  /** Every record sits under the key built from its own id. */
  predicate KeysMatchIds(entries: map<string, Entry>) {
    forall k :: k in entries ==> k == StoreKey(entries[k].record.id)
  }

  /** Which branch of the callback handler a request takes. */
  datatype Decision =
    | MissingId
    | ReadFailed
    | Unknown
    | Resolved(key: string, record: Transaction, outcome: Outcome)

  /** The callback's id as the template literal `transaction:${transactionId}`
      turns it into text; `None` when that conversion throws, which happens
      inside the `try` around the read. */
  function IdText(form: Form): Option<string>
    requires Truthy(CallbackId(form))
  {
    JsValues.Text(CallbackId(form).value)
  }

  function Decide(entries: map<string, Entry>, form: Form, env: HashEnv, now: int, readFails: bool): (d: Decision)
    ensures d.MissingId? <==> !Truthy(CallbackId(form))
    ensures d.ReadFailed? <==> Truthy(CallbackId(form)) && (IdText(form).None? || readFails)
    ensures d.Resolved? ==>
              Truthy(CallbackId(form)) && IdText(form).Some? && d.key == StoreKey(IdText(form).value) &&
              d.key in entries && now < entries[d.key].expiresAt && d.record == entries[d.key].record
    ensures d.Resolved? ==> (d.outcome == HashInvalid <==> !Verify(form, StoreBacked, env))
  {
    var id := CallbackId(form);
    if !Truthy(id) then MissingId
    else match IdText(form)
      case None => ReadFailed
      case Some(idText) =>
        if readFails then ReadFailed
        else
          var key := StoreKey(idText);
          match Live(entries, key, now)
          case None => Unknown
          case Some(t) => Resolved(key, t, Classify(Verify(form, StoreBacked, env), Field(form, "ProcReturnCode")))
  }

  function CallbackReply(d: Decision): Reply {
    match d
    case MissingId => Reply(400, "Missing transaction ID")
    case ReadFailed => Reply(500, "Database error")
    case Unknown => Reply(404, "Transaction not found")
    case Resolved(_, _, o) => Reply(200, Ack(o))
  }

  /** The store after the callback: a resolved request writes the updated
      record back, unless the write fails (the failure is only logged). */
  function StoreAfterCallback(entries: map<string, Entry>, d: Decision, form: Form, now: int, nowIso: string, writeFails: bool): (r: map<string, Entry>)
    ensures d.Resolved? && !writeFails ==> r.Keys == entries.Keys + {d.key}
    ensures d.Resolved? && !writeFails ==>
              r[d.key] == Entry(ApplyOutcome(d.record, d.outcome, nowIso, form), now + Ttl)
    ensures !d.Resolved? || writeFails ==> r == entries
    ensures forall k :: k in entries && !(d.Resolved? && k == d.key) ==> k in r && r[k] == entries[k]
  {
    match d
    case Resolved(key, t, o) =>
      if writeFails then entries else entries[key := Entry(ApplyOutcome(t, o, nowIso, form), now + Ttl)]
    case _ => entries
  }

  /** The payload handed to the consumer, built from the updated record
      whether or not the write succeeded. */
  function CallbackNotice(d: Decision, form: Form, nowIso: string): (n: Option<Notification>)
    ensures n.Some? <==> d.Resolved?
    ensures n.Some? ==> n.value.transactionId == d.record.id && n.value.status == NotifyLabel(d.outcome)
    ensures n.Some? ==> n.value.cmiResponse == Some(form)
  {
    match d
    case Resolved(_, t, o) => Some(NotificationOf(ApplyOutcome(t, o, nowIso, form), NotifyLabel(o)))
    case _ => None
  }

  /** The status endpoint's reply. */
  datatype StatusReply = Shown(view: StatusView) | StatusError(code: nat, error: string)

  function StatusReplyFor(entries: map<string, Entry>, transactionId: string, now: int, readFails: bool): (r: StatusReply)
    ensures r.Shown? <==> !readFails && Live(entries, StoreKey(transactionId), now).Some?
    ensures r.Shown? ==> r.view == StatusProjection(entries[StoreKey(transactionId)].record)
    ensures r.StatusError? ==> (r.code == 500 <==> readFails) && (r.code == 500 || r.code == 404)
  {
    if readFails then StatusError(500, "Internal server error")
    else match Live(entries, StoreKey(transactionId), now)
      case None => StatusError(404, "Transaction not found")
      case Some(t) => Shown(StatusProjection(t))
  }

  /** The store after a create request. */
  function StoreAfterCreate(entries: map<string, Entry>, body: Form, id: string, now: int, nowIso: string, writeFails: bool): map<string, Entry> {
    var req := CreateRequestOf(body);
    if HasRequiredFields(req) && !writeFails
    then entries[StoreKey(id) := Entry(NewTransaction(req, id, nowIso), now + Ttl)]
    else entries
  }

  /** The replies of the callback handler, branch by branch. */
  lemma CallbackTable(entries: map<string, Entry>, form: Form, env: HashEnv, now: int, readFails: bool)
    ensures var r := CallbackReply(Decide(entries, form, env, now, readFails));
            var id := CallbackId(form);
            (!Truthy(id) ==> r == Reply(400, "Missing transaction ID")) &&
            (Truthy(id) && (IdText(form).None? || readFails) ==> r == Reply(500, "Database error")) &&
            (Truthy(id) && IdText(form).Some? && !readFails && Live(entries, StoreKey(IdText(form).value), now).None? ==>
               r == Reply(404, "Transaction not found")) &&
            (Truthy(id) && IdText(form).Some? && !readFails && Live(entries, StoreKey(IdText(form).value), now).Some? ==>
               r == Reply(200, Ack(Classify(Verify(form, StoreBacked, env), Field(form, "ProcReturnCode")))))
  {
  }

  /** Only a resolved callback touches the store or notifies, and a
      failing write changes neither the acknowledgment nor the payload. */
  lemma CallbackEffects(entries: map<string, Entry>, form: Form, env: HashEnv, now: int, nowIso: string, readFails: bool, writeFails: bool)
    ensures var d := Decide(entries, form, env, now, readFails);
            (!d.Resolved? ==> StoreAfterCallback(entries, d, form, now, nowIso, writeFails) == entries &&
                              CallbackNotice(d, form, nowIso).None?) &&
            (d.Resolved? ==> CallbackNotice(d, form, nowIso).Some?) &&
            (writeFails ==> StoreAfterCallback(entries, d, form, now, nowIso, writeFails) == entries)
  {
  }

  /** An approved callback marks the record completed, stamps
      `completedAt`, stores the gateway's fields, keeps every other field
      of the record, renews the expiry, and
      leaves every other key alone. */
  lemma ApprovedCallbackCompletes(entries: map<string, Entry>, form: Form, env: HashEnv, now: int, nowIso: string)
    requires Truthy(CallbackId(form)) && IdText(form).Some?
    requires Live(entries, StoreKey(IdText(form).value), now).Some?
    requires Verify(form, StoreBacked, env) && Field(form, "ProcReturnCode") == Some(Str("00"))
    ensures var key := StoreKey(IdText(form).value);
            var before := entries[key].record;
            var after := StoreAfterCallback(entries, Decide(entries, form, env, now, false), form, now, nowIso, false);
            key in after && after[key].expiresAt == now + Ttl &&
            after[key].record.status == Completed && after[key].record.completedAt == Some(nowIso) &&
            after[key].record == before.(status := Completed, completedAt := Some(nowIso), cmiResponse := Some(form)) &&
            CallbackReply(Decide(entries, form, env, now, false)) == Reply(200, "ACTION=POSTAUTH") &&
            (forall k :: k in entries && k != key ==> k in after && after[k] == entries[k])
  {
  }

  /** A declined payment (a valid hash, any ProcReturnCode but "00") marks
      the record `failed`, stamps `failedAt`, stores the gateway's fields,
      keeps every other field, renews the expiry, acknowledges `APPROVED`,
      labels the notification `failed` and leaves every other key alone. */
  lemma DeclinedCallbackMarksFailed(entries: map<string, Entry>, form: Form, env: HashEnv, now: int, nowIso: string)
    requires Truthy(CallbackId(form)) && IdText(form).Some?
    requires Live(entries, StoreKey(IdText(form).value), now).Some?
    requires Verify(form, StoreBacked, env) && Field(form, "ProcReturnCode") != Some(Str("00"))
    ensures var key := StoreKey(IdText(form).value);
            var before := entries[key].record;
            var d := Decide(entries, form, env, now, false);
            var after := StoreAfterCallback(entries, d, form, now, nowIso, false);
            key in after && after[key].expiresAt == now + Ttl &&
            after[key].record == before.(status := Failed, failedAt := Some(nowIso), cmiResponse := Some(form)) &&
            CallbackReply(d) == Reply(200, "APPROVED") &&
            CallbackNotice(d, form, nowIso).value.status == "failed" &&
            (forall k :: k in entries && k != key ==> k in after && after[k] == entries[k])
  {
  }

  /** A callback whose hash does not verify marks the record `failed`
      (never `security_failed`), stamps `failedAt`, stores the gateway's
      fields, keeps every other field, renews the expiry, acknowledges
      `FAILED` and labels the notification `security_failed`, whatever
      ProcReturnCode says; every other key is left alone. */
  lemma InvalidHashMarksFailed(entries: map<string, Entry>, form: Form, env: HashEnv, now: int, nowIso: string)
    requires Truthy(CallbackId(form)) && IdText(form).Some?
    requires Live(entries, StoreKey(IdText(form).value), now).Some?
    requires !Verify(form, StoreBacked, env)
    ensures var key := StoreKey(IdText(form).value);
            var before := entries[key].record;
            var d := Decide(entries, form, env, now, false);
            var after := StoreAfterCallback(entries, d, form, now, nowIso, false);
            key in after && after[key].expiresAt == now + Ttl &&
            after[key].record.status == Failed && after[key].record.failedAt == Some(nowIso) &&
            after[key].record == before.(status := Failed, failedAt := Some(nowIso), cmiResponse := Some(form)) &&
            CallbackReply(d) == Reply(200, "FAILED") &&
            CallbackNotice(d, form, nowIso).value.status == "security_failed" &&
            (forall k :: k in entries && k != key ==> k in after && after[k] == entries[k])
  {
  }

  /** An id whose conversion to text throws fails inside the `try` around
      the read: the reply is 500 "Database error", whatever the store holds,
      nothing is written and nobody is notified. */
  lemma UnconvertibleIdIsDatabaseError(entries: map<string, Entry>, form: Form, env: HashEnv, now: int, nowIso: string, writeFails: bool)
    requires Truthy(CallbackId(form)) && IdText(form).None?
    ensures var d := Decide(entries, form, env, now, false);
            CallbackReply(d) == Reply(500, "Database error") &&
            StoreAfterCallback(entries, d, form, now, nowIso, writeFails) == entries &&
            CallbackNotice(d, form, nowIso).None?
  {
  }

  /** A record a read no longer sees is reported exactly as a missing one. */
  lemma ExpiredIsNotFound(entries: map<string, Entry>, form: Form, env: HashEnv, now: int, id: string)
    requires Truthy(CallbackId(form)) && IdText(form) == Some(id)
    requires StoreKey(id) in entries && entries[StoreKey(id)].expiresAt <= now
    ensures CallbackReply(Decide(entries, form, env, now, false)) == Reply(404, "Transaction not found")
    ensures StatusReplyFor(entries, id, now, false) == StatusError(404, "Transaction not found")
  {
  }

  /** Both writers keep every record under the key of its own id. */
  lemma CallbackKeepsKeysMatchIds(entries: map<string, Entry>, form: Form, env: HashEnv, now: int, nowIso: string, readFails: bool, writeFails: bool)
    requires KeysMatchIds(entries)
    ensures KeysMatchIds(StoreAfterCallback(entries, Decide(entries, form, env, now, readFails), form, now, nowIso, writeFails))
  {
  }

  lemma CreateKeepsKeysMatchIds(entries: map<string, Entry>, body: Form, id: string, now: int, nowIso: string, writeFails: bool)
    requires KeysMatchIds(entries)
    ensures KeysMatchIds(StoreAfterCreate(entries, body, id, now, nowIso, writeFails))
  {
  }

  /** The notification carries the updated record, with the callback's
      label, whether or not the write went through. */
  lemma NoticeCarriesUpdatedRecord(entries: map<string, Entry>, form: Form, env: HashEnv, now: int, nowIso: string)
    requires Decide(entries, form, env, now, false).Resolved?
    ensures var d := Decide(entries, form, env, now, false);
            var n := CallbackNotice(d, form, nowIso).value;
            n.status == NotifyLabel(d.outcome) && n.transactionId == d.record.id &&
            n.amount == d.record.amount && n.email == d.record.email && n.name == d.record.name &&
            n.phone == d.record.phone && n.description == d.record.description &&
            n.cmiResponse == Some(form) &&
            (d.outcome == Approved ==> n.completedAt == Some(nowIso) && n.failedAt == d.record.failedAt) &&
            (d.outcome != Approved ==> n.failedAt == Some(nowIso) && n.completedAt == d.record.completedAt)
  {
  }

  /** In a store whose keys match their ids, the notification names the
      transaction the gateway's callback named. */
  lemma NoticeNamesCallbackId(entries: map<string, Entry>, form: Form, env: HashEnv, now: int, nowIso: string)
    requires KeysMatchIds(entries)
    requires Decide(entries, form, env, now, false).Resolved?
    ensures CallbackNotice(Decide(entries, form, env, now, false), form, nowIso).value.transactionId
            == IdText(form).value
  {
    var key := StoreKey(IdText(form).value);
    StoreKeyInjective(IdText(form).value, entries[key].record.id);
  }

  /** A record created at `now` shows as pending, with no completion or
      failure time, to every status request within the hour. */
  lemma CreateThenStatus(entries: map<string, Entry>, body: Form, id: string, now: int, nowIso: string, later: int)
    requires HasRequiredFields(CreateRequestOf(body))
    requires now <= later < now + Ttl
    ensures var v := StatusReplyFor(StoreAfterCreate(entries, body, id, now, nowIso, false), id, later, false);
            v.Shown? && v.view.transactionId == id && v.view.status == Pending &&
            v.view.createdAt == nowIso && v.view.completedAt.None? && v.view.failedAt.None?
  {
  }

  /** A status request after a resolved callback shows the callback's
      outcome. */
  lemma CallbackThenStatus(entries: map<string, Entry>, form: Form, env: HashEnv, now: int, nowIso: string, later: int)
    requires KeysMatchIds(entries)
    requires Decide(entries, form, env, now, false).Resolved?
    requires now <= later < now + Ttl
    ensures var d := Decide(entries, form, env, now, false);
            var v := StatusReplyFor(StoreAfterCallback(entries, d, form, now, nowIso, false), d.record.id, later, false);
            v.Shown? && v.view.transactionId == d.record.id &&
            (d.outcome == Approved ==> v.view.status == Completed && v.view.completedAt == Some(nowIso)) &&
            (d.outcome != Approved ==> v.view.status == Failed && v.view.failedAt == Some(nowIso))
  {
    var d := Decide(entries, form, env, now, false);
    assert d.key == StoreKey(d.record.id);
  }

  /** Nothing guards against a replay: the same approved callback
      delivered again within the hour resolves again and re-stamps
      `completedAt` with the later time. */
  lemma ReplayRestampsStore(entries: map<string, Entry>, form: Form, env: HashEnv, now1: int, iso1: string, now2: int, iso2: string)
    requires Decide(entries, form, env, now1, false).Resolved?
    requires Decide(entries, form, env, now1, false).outcome == Approved
    requires now1 <= now2 < now1 + Ttl
    ensures var once := StoreAfterCallback(entries, Decide(entries, form, env, now1, false), form, now1, iso1, false);
            var d2 := Decide(once, form, env, now2, false);
            var twice := StoreAfterCallback(once, d2, form, now2, iso2, false);
            d2.Resolved? && CallbackReply(d2) == Reply(200, "ACTION=POSTAUTH") &&
            twice[d2.key].record.completedAt == Some(iso2)
  {
  }

  class TransactionStore {
    var entries: map<string, Entry>

    constructor ()
      ensures entries == map[]
    {
      entries := map[];
    }

    /** `redis.get(key)`; `fails` says whether the client throws. */
    method Get(key: string, now: int, fails: bool) returns (r: Option<Option<Transaction>>)
      ensures fails <==> r.None?
      ensures r.Some? ==> r.value == Live(entries, key, now)
    {
      if fails {
        return None;
      }
      if key in entries && now < entries[key].expiresAt {
        return Some(Some(entries[key].record));
      }
      return Some(None);
    }

    /** `redis.setEx(key, 3600, record)`; `fails` says whether the client throws. */
    method SetEx(key: string, record: Transaction, now: int, fails: bool)
      modifies this
      ensures entries == if fails then old(entries) else old(entries)[key := Entry(record, now + Ttl)]
    {
      if !fails {
        entries := entries[key := Entry(record, now + Ttl)];
      }
    }

    /** `POST /api/payments/create`: the id comes from the clock reading
        `millis` and the random `suffix`; a failed write is ignored. */
    method Create(body: Form, millis: string, suffix: string, now: int, nowIso: string, writeFails: bool)
      returns (reply: CreateReply)
      modifies this
      ensures reply == CreateReplyFor(CreateRequestOf(body), TransactionId(millis, suffix))
      ensures entries == StoreAfterCreate(old(entries), body, TransactionId(millis, suffix), now, nowIso, writeFails)
      ensures KeysMatchIds(old(entries)) ==> KeysMatchIds(entries)
    {
      if KeysMatchIds(entries) {
        CreateKeepsKeysMatchIds(entries, body, TransactionId(millis, suffix), now, nowIso, writeFails);
      }
      var req := CreateRequestOf(body);
      if !HasRequiredFields(req) {
        return BadRequest("Missing required fields");
      }
      var transactionId := TransactionId(millis, suffix);
      var transaction := NewTransaction(req, transactionId, nowIso);
      SetEx(StoreKey(transactionId), transaction, now, writeFails);
      reply := Created(transactionId);
    }

    /** `POST /api/payments/callback`. `notified` is whether the consumer
        accepted the notification; nothing else depends on it. */
    method Callback(form: Form, env: HashEnv, now: int, nowIso: string, readFails: bool, writeFails: bool, notifyOk: bool)
      returns (reply: Reply, notice: Option<Notification>, notified: bool)
      modifies this
      ensures reply == CallbackReply(Decide(old(entries), form, env, now, readFails))
      ensures notice == CallbackNotice(Decide(old(entries), form, env, now, readFails), form, nowIso)
      ensures entries == StoreAfterCallback(old(entries), Decide(old(entries), form, env, now, readFails), form, now, nowIso, writeFails)
      ensures notified <==> notice.Some? && notifyOk
      ensures KeysMatchIds(old(entries)) ==> KeysMatchIds(entries)
    {
      if KeysMatchIds(entries) {
        CallbackKeepsKeysMatchIds(entries, form, env, now, nowIso, readFails, writeFails);
      }
      var transactionId := CallbackId(form);
      if !Truthy(transactionId) {
        return Reply(400, "Missing transaction ID"), None, false;
      }
      var idText := JsValues.Text(transactionId.value);
      if idText.None? {
        return Reply(500, "Database error"), None, false;
      }
      var key := StoreKey(idText.value);
      var stored := Get(key, now, readFails);
      if stored.None? {
        return Reply(500, "Database error"), None, false;
      }
      if stored.value.None? {
        return Reply(404, "Transaction not found"), None, false;
      }
      var isHashValid := VerifyCMIHash(form, StoreBacked, env);
      var outcome := Classify(isHashValid, Field(form, "ProcReturnCode"));
      var transaction := ApplyOutcome(stored.value.value, outcome, nowIso, form);
      SetEx(key, transaction, now, writeFails);
      notice := Some(NotificationOf(transaction, NotifyLabel(outcome)));
      notified := notifyOk;
      reply := Reply(200, Ack(outcome));
    }

    /** `GET /api/payments/status/:transactionId`. */
    method Status(transactionId: string, now: int, readFails: bool) returns (reply: StatusReply)
      ensures reply == StatusReplyFor(entries, transactionId, now, readFails)
    {
      var stored := Get(StoreKey(transactionId), now, readFails);
      if stored.None? {
        return StatusError(500, "Internal server error");
      }
      if stored.value.None? {
        return StatusError(404, "Transaction not found");
      }
      reply := Shown(StatusProjection(stored.value.value));
    }
  }
}
