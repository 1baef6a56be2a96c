/** The values a parsed request body holds, and the handful of JavaScript
    operations the handlers apply to them: own-key lookup, truthiness,
    `a || b` and conversion to text in a template literal. */
module JsValues {
  import opened Wrappers

  /** One field value of a request body. `express.urlencoded` and
      `express.json` produce strings, but also arrays, nested objects,
      numbers, booleans and null. Only a string has `.replace`; for any
      other value the model keeps what the handlers observe of it: whether
      it is truthy, and the text `String(v)` gives it, `None` when that
      conversion throws (a JSON object whose `toString` member is not a
      function, such as `{"toString": 0}`). */
  datatype Value = Str(s: string) | NonString(truthy: bool, text: Option<string>)

  /** A request body: its own (key, value) pairs in insertion order. */
  type Form = seq<(string, Value)>

  /** JavaScript truthiness of a field read; `None` is `undefined`. */
  predicate Truthy(v: Option<Value>) {
    match v
    case None => false
    case Some(Str(s)) => s != ""
    case Some(NonString(t, _)) => t
  }

  /** `a || b` on two field reads. */
  function Or(a: Option<Value>, b: Option<Value>): (r: Option<Value>)
    ensures Truthy(r) <==> Truthy(a) || Truthy(b)
    ensures Truthy(a) ==> r == a
    ensures !Truthy(a) ==> r == b
  {
    if Truthy(a) then a else b
  }

  /** The text a template literal `${v}` produces for a value, `None`
      when the conversion throws. */
  function Text(v: Value): Option<string> {
    match v
    case Str(s) => Some(s)
    case NonString(_, t) => t
  }

  /** The own keys of a body, in insertion order. */
  function Keys(form: Form): (ks: seq<string>)
    ensures |ks| == |form|
    ensures forall i :: 0 <= i < |form| ==> ks[i] == form[i].0
  {
    seq(|form|, i requires 0 <= i < |form| => form[i].0)
  }

  /** A JavaScript object never holds the same own key twice. */
  predicate DistinctKeys(form: Form) {
    forall i, j :: 0 <= i < j < |form| ==> form[i].0 != form[j].0
  }

  /** `form[name]` (or `form.name`): the value stored under exactly this key. */
  function Field(form: Form, name: string): (r: Option<Value>)
    ensures r.None? <==> forall i :: 0 <= i < |form| ==> form[i].0 != name
    ensures r.Some? ==> exists i :: 0 <= i < |form| && form[i] == (name, r.value)
  {
    if form == [] then None
    else if form[0].0 == name then Some(form[0].1)
    else
      var r := Field(form[1..], name);
      assert forall i :: 1 <= i < |form| ==> form[i] == form[1..][i - 1];
      r
  }

  /** In a body with distinct keys, reading a key gives the value stored with it. */
  lemma FieldAt(form: Form, i: nat)
    requires DistinctKeys(form) && i < |form|
    ensures Field(form, form[i].0) == Some(form[i].1)
  {
    var r := Field(form, form[i].0);
    var j :| 0 <= j < |form| && form[j] == (form[i].0, r.value);
  }

  /** In a body with distinct keys, a read finds exactly the pairs of the body. */
  lemma FieldIffMember(form: Form, k: string, v: Value)
    requires DistinctKeys(form)
    ensures Field(form, k) == Some(v) <==> (k, v) in form
  {
    if (k, v) in form {
      var i :| 0 <= i < |form| && form[i] == (k, v);
      FieldAt(form, i);
    }
  }

  /** Replacing the value at position `i` leaves every other key's read unchanged. */
  lemma FieldOtherKey(form: Form, i: nat, w: Value, k: string)
    requires i < |form| && k != form[i].0
    ensures Field(form[i := (form[i].0, w)], k) == Field(form, k)
  {
    if form != [] && i > 0 {
      assert form[i := (form[i].0, w)][1..] == form[1..][i - 1 := (form[i].0, w)];
      FieldOtherKey(form[1..], i - 1, w, k);
    }
  }
}
