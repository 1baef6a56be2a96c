/** The stateless server: nothing is stored; the callback verifies the
    hash, and for a valid hash forwards what the gateway posted (with the
    custom data the payment carried) to the consumer. `JSON.parse` is an
    input: `None` when it throws. */
module StatelessServer {
  import opened Wrappers
  import opened JsValues
  import Text
  import opened CmiHash
  import opened Transactions

  /** What `JSON.parse` yields, as far as the notification reads it: `null`,
      an object with its members, or any other value (a string, a number, a
      boolean, an array), whose `guest_id` and `donated_to` are undefined. */
  datatype Json = JsonNull | JsonObject(members: map<string, Value>) | JsonOther

  /** `.replace(/&#34;/g, '"').replace(/&#39;/g, "'")`: no encoded quote
      survives the decoding, and text with no `&` is passed to `JSON.parse`
      unchanged. */
  function DecodeEntities(s: string): (r: string)
    ensures !Text.Occurs("&#34;", r) && !Text.Occurs("&#39;", r)
    ensures (forall i :: 0 <= i < |s| ==> s[i] != '&') ==> r == s
  {
    EntityPasses(s);
    Text.ReplaceAll(Text.ReplaceAll(s, "&#34;", "\""), "&#39;", "'")
  }

  /** The two replacement passes, as `DecodeEntities` promises them. */
  lemma {:induction false} EntityPasses(s: string)
    ensures var r := Text.ReplaceAll(Text.ReplaceAll(s, "&#34;", "\""), "&#39;", "'");
            !Text.Occurs("&#34;", r) && !Text.Occurs("&#39;", r) &&
            ((forall i :: 0 <= i < |s| ==> s[i] != '&') ==> r == s)
  {
    var once := Text.ReplaceAll(s, "&#34;", "\"");
    Text.ReplaceAllRemoves(s, "&#34;", '"');
    Text.ReplaceAllKeepsAbsent(once, "&#39;", '\'', "&#34;");
    Text.ReplaceAllRemoves(once, "&#39;", '\'');
    if forall i :: 0 <= i < |s| ==> s[i] != '&' {
      Text.ReplaceAllAbsent(s, "&#34;", "\"");
      Text.ReplaceAllAbsent(once, "&#39;", "'");
    }
  }

  /** `&#34;` at the front decodes to a double quote. */
  lemma {:induction false} DecodesQuote(s: string)
    ensures DecodeEntities("&#34;" + s) == "\"" + DecodeEntities(s)
  {
    var once := Text.ReplaceAll(s, "&#34;", "\"");
    Text.ReplaceAllMatchFirst(s, "&#34;", "\"");
    assert |once| >= 4 ==> (['"'] + once)[..5][0] == '"';
    Text.ReplaceAllSkipFirst('"', once, "&#39;", "'");
  }

  /** `&#39;` at the front decodes to an apostrophe. */
  lemma {:induction false} DecodesApostrophe(s: string)
    ensures DecodeEntities("&#39;" + s) == "'" + DecodeEntities(s)
  {
    var once := Text.ReplaceAll(s, "&#34;", "\"");
    assert "&#39;" + s == ['&'] + ("#39;" + s);
    assert (['&'] + ("#39;" + s))[..5][3] == '9';
    Text.ReplaceAllSkipFirst('&', "#39;" + s, "&#34;", "\"");
    Text.ReplaceAllKeepsPrefix("#39;", s, "&#34;", "\"");
    assert ['&'] + ("#39;" + once) == "&#39;" + once;
    Text.ReplaceAllMatchFirst(once, "&#39;", "'");
  }

  /** Whether `s` begins with one of the two entities the decoding knows. */
  predicate StartsWithEntity(s: string) {
    |s| >= 5 && (s[..5] == "&#34;" || s[..5] == "&#39;")
  }

  /** Any character that does not begin an entity is passed through
      unchanged, in particular every character other than `&`. */
  lemma {:induction false} DecodesOther(c: char, s: string)
    requires !StartsWithEntity([c] + s)
    ensures DecodeEntities([c] + s) == [c] + DecodeEntities(s)
  {
    var once := Text.ReplaceAll(s, "&#34;", "\"");
    Text.ReplaceAllSkipFirst(c, s, "&#34;", "\"");
    if |once| >= 4 && ([c] + once)[..5] == "&#39;" {
      assert once[..4] == ([c] + once)[..5][1..] == "#39;";
      Text.PrefixSurvivesReplace(s, "&#34;", '"', "#39;");
      assert false;
    }
    Text.ReplaceAllSkipFirst(c, once, "&#39;", "'");
  }

  /** The decoding read left to right in a single pass: each `&#34;` becomes
      `"`, each `&#39;` becomes `'`, and every other character is kept. */
  function DecodeLeftToRight(s: string): string
    decreases |s|
  {
    if s == [] then []
    else if |s| >= 5 && s[..5] == "&#34;" then "\"" + DecodeLeftToRight(s[5..])
    else if |s| >= 5 && s[..5] == "&#39;" then "'" + DecodeLeftToRight(s[5..])
    else [s[0]] + DecodeLeftToRight(s[1..])
  }

  /** The two global replacements decode exactly as the single pass does:
      the first pass's `"` never completes or breaks a `&#39;`. */
  lemma {:induction false} DecodeEntitiesIsLeftToRight(s: string)
    ensures DecodeEntities(s) == DecodeLeftToRight(s)
    decreases |s|
  {
    if s == [] {
    } else if |s| >= 5 && s[..5] == "&#34;" {
      assert s == "&#34;" + s[5..];
      DecodesQuote(s[5..]);
      DecodeEntitiesIsLeftToRight(s[5..]);
    } else if |s| >= 5 && s[..5] == "&#39;" {
      assert s == "&#39;" + s[5..];
      DecodesApostrophe(s[5..]);
      DecodeEntitiesIsLeftToRight(s[5..]);
    } else {
      assert s == [s[0]] + s[1..];
      DecodesOther(s[0], s[1..]);
      DecodeEntitiesIsLeftToRight(s[1..]);
    }
  }

  /** `customData` after its try/catch: `{}` unless the field is a truthy
      string whose decoded text parses. A truthy value that is not a string
      has no `.replace`, which throws and is caught. */
  function CustomData(form: Form, parseJson: string -> Option<Json>): (c: Json)
    ensures !Truthy(Field(form, "customData")) ==> c == JsonObject(map[])
    ensures c.JsonNull? ==>
              Field(form, "customData").Some? && Field(form, "customData").value.Str? &&
              parseJson(DecodeEntities(Field(form, "customData").value.s)) == Some(JsonNull)
  {
    var raw := Field(form, "customData");
    if !Truthy(raw) then JsonObject(map[])
    else match raw.value
      case Str(s) => parseJson(DecodeEntities(s)).GetOr(JsonObject(map[]))
      case NonString(_, _) => JsonObject(map[])
  }

  /** `customData[name]` for a value that is not `null`. */
  function MemberOf(c: Json, name: string): (r: Option<Value>)
    requires !c.JsonNull?
    ensures r.Some? <==> c.JsonObject? && name in c.members
    ensures r.Some? ==> r.value == c.members[name]
  {
    if c.JsonObject? && name in c.members then Some(c.members[name]) else None
  }

  /** The payload sent to the consumer; `None` is an absent member. */
  datatype Payload = Payload(
    transactionId: Option<Value>,
    amount: Amount,
    email: Option<Value>,
    name: Option<Value>,
    phone: Option<Value>,
    status: string,
    completedAt: string,
    cmiResponse: Form,
    guestId: Option<Value>,
    donatedTo: Option<Value>)

  /** The payload `notifyBubbleIOFromCMI` builds; `None` when the custom
      data parsed to `null`, since reading a member of `null` throws before
      anything is sent. */
  function PayloadOf(form: Form, statusLabel: string, nowIso: string, parseJson: string -> Option<Json>): (p: Option<Payload>)
    ensures p.None? <==> CustomData(form, parseJson).JsonNull?
    ensures p.Some? ==> p.value.status == statusLabel && p.value.cmiResponse == form
  {
    var c := CustomData(form, parseJson);
    if c.JsonNull? then None
    else Some(Payload(CallbackId(form), ParsedFrom(Field(form, "amount")), Field(form, "email"),
                      Field(form, "BillToName"), Field(form, "tel"), statusLabel, nowIso, form,
                      MemberOf(c, "guest_id"), MemberOf(c, "donated_to")))
  }

  /** `POST /api/payments/create` without a store: the same validation,
      and the new id goes to the gateway's form. */
  function CreateReply(body: Form, millis: string, suffix: string): (r: CreateReply)
    ensures r.BadRequest? <==> !HasRequiredFields(CreateRequestOf(body))
    ensures r.BadRequest? ==> r.error == "Missing required fields"
    ensures r.Created? ==> r.transactionId == "TXN_" + millis + "_" + suffix
  {
    CreateReplyFor(CreateRequestOf(body), TransactionId(millis, suffix))
  }

  /** The acknowledgment and the notification that was attempted. */
  datatype CallbackResult = CallbackResult(reply: Reply, notice: Option<Payload>)

  /** `POST /api/payments/callback`; a failed delivery is only logged. */
  function StatelessCallback(form: Form, env: HashEnv, nowIso: string, parseJson: string -> Option<Json>): (r: CallbackResult)
    ensures r.reply.code == 400 <==> !Truthy(CallbackId(form))
    ensures r.reply.code == 400 || r.reply.code == 200
    ensures r.notice.Some? ==> Truthy(CallbackId(form)) && Verify(form, Stateless, env)
  {
    if !Truthy(CallbackId(form)) then CallbackResult(Reply(400, "Missing transaction ID"), None)
    else
      var o := Classify(Verify(form, Stateless, env), Field(form, "ProcReturnCode"));
      CallbackResult(Reply(200, Ack(o)),
                     if o == HashInvalid then None else PayloadOf(form, NotifyLabel(o), nowIso, parseJson))
  }

  /** The replies and notifications of the stateless callback. Unlike the
      store-backed server, an invalid hash notifies nobody. */
  lemma StatelessTable(form: Form, env: HashEnv, nowIso: string, parseJson: string -> Option<Json>)
    ensures var r := StatelessCallback(form, env, nowIso, parseJson);
            var valid := Verify(form, Stateless, env);
            var code := Field(form, "ProcReturnCode");
            (!Truthy(CallbackId(form)) ==> r == CallbackResult(Reply(400, "Missing transaction ID"), None)) &&
            (Truthy(CallbackId(form)) && !valid ==> r == CallbackResult(Reply(200, "FAILED"), None)) &&
            (Truthy(CallbackId(form)) && valid && code == Some(Str("00")) ==>
               r.reply == Reply(200, "ACTION=POSTAUTH") && r.notice == PayloadOf(form, "success", nowIso, parseJson)) &&
            (Truthy(CallbackId(form)) && valid && code != Some(Str("00")) ==>
               r.reply == Reply(200, "APPROVED") && r.notice == PayloadOf(form, "failed", nowIso, parseJson))
  {
  }

  /** The acknowledgment depends on neither the clock nor the custom data. */
  lemma AckIgnoresNotification(form: Form, env: HashEnv, t1: string, t2: string, p1: string -> Option<Json>, p2: string -> Option<Json>)
    ensures StatelessCallback(form, env, t1, p1).reply == StatelessCallback(form, env, t2, p2).reply
  {
  }

  /** The payload carries the gateway's own fields and sets `completedAt`
      even for a declined payment. */
  lemma PayloadFields(form: Form, statusLabel: string, nowIso: string, parseJson: string -> Option<Json>)
    requires !CustomData(form, parseJson).JsonNull?
    ensures var p := PayloadOf(form, statusLabel, nowIso, parseJson);
            p.Some? && p.value.transactionId == CallbackId(form) && p.value.completedAt == nowIso &&
            p.value.status == statusLabel && p.value.cmiResponse == form &&
            p.value.name == Field(form, "BillToName") && p.value.phone == Field(form, "tel") &&
            p.value.email == Field(form, "email") && p.value.amount == ParsedFrom(Field(form, "amount"))
  {
  }

  /** Custom data that is absent, not a string, or does not parse leaves
      `guest_id` and `donated_to` undefined, and the payload is still sent. */
  lemma CustomDataFallback(form: Form, statusLabel: string, nowIso: string, parseJson: string -> Option<Json>)
    requires var raw := Field(form, "customData");
             !Truthy(raw) || raw.value.NonString? || parseJson(DecodeEntities(raw.value.s)).None?
    ensures var p := PayloadOf(form, statusLabel, nowIso, parseJson);
            p.Some? && p.value.guestId.None? && p.value.donatedTo.None?
  {
  }

  /** Custom data whose decoded text parses to an object supplies its
      members. */
  lemma CustomDataMembers(form: Form, s: string, members: map<string, Value>, statusLabel: string, nowIso: string, parseJson: string -> Option<Json>)
    requires Field(form, "customData") == Some(Str(s)) && s != ""
    requires parseJson(DecodeEntities(s)) == Some(JsonObject(members))
    ensures var p := PayloadOf(form, statusLabel, nowIso, parseJson);
            p.Some? &&
            ("guest_id" in members ==> p.value.guestId == Some(members["guest_id"])) &&
            ("donated_to" in members ==> p.value.donatedTo == Some(members["donated_to"]))
  {
  }

  /** Custom data that parses to `null` makes the notification throw before
      it is sent; the gateway still gets its acknowledgment. */
  lemma NullCustomDataDropsNotice(form: Form, env: HashEnv, nowIso: string, parseJson: string -> Option<Json>)
    requires Field(form, "customData").Some? && Field(form, "customData").value.Str?
    requires Field(form, "customData").value.s != ""
    requires parseJson(DecodeEntities(Field(form, "customData").value.s)) == Some(JsonNull)
    ensures StatelessCallback(form, env, nowIso, parseJson).notice.None?
    ensures Truthy(CallbackId(form)) ==>
              StatelessCallback(form, env, nowIso, parseJson).reply.body ==
              Ack(Classify(Verify(form, Stateless, env), Field(form, "ProcReturnCode")))
  {
  }
}
