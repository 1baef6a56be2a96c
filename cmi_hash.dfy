/** `verifyCMIHash`, the check that a gateway callback is authentic. Both
    handlers carry a copy: the store-backed one and the stateless one
    differ only in which fields they leave out of the hash string and in
    how they strip line ends. SHA-512 with its hex-to-base64 re-encoding,
    and `decodeURIComponent`, are foreign; they enter as the functions of a
    `HashEnv`, and so does the configured store key. */
module CmiHash {
  import opened Wrappers
  import opened JsValues
  import opened Text
  import opened KeySort
  import opened Escaping

  /** Which copy of `verifyCMIHash`. */
  datatype Variant =
    | StoreBacked  // the Redis-backed server
    | Stateless    // the server that keeps no transactions

  /** What the check depends on besides the body: the store key
      (`undefined` when the variable is unset), URI decoding (which throws on
      a malformed escape) and base64(SHA-512(text)). */
  datatype HashEnv = HashEnv(
    storeKey: Option<string>,
    decodeUri: string -> Option<string>,
    digest: string -> string)

  /** Fields whose lower-cased name is listed here take no part in the hash string. */
  predicate Excluded(variant: Variant, key: string) {
    var lower := Lower(key);
    lower == "hash" || lower == "encoding" || (variant == Stateless && lower == "customdata")
  }

  /** Line-end stripping applied to the raw value before decoding. */
  function StripLineEnd(variant: Variant, raw: string): string {
    match variant
    case StoreBacked => DropTrailing(DropTrailing(raw, '\n'), '\r')
    case Stateless => DropTrailing(raw, '\n')
  }

  /** The decoded value of one field: `undefined` and non-string values have
      no `.replace` and throw, and so does a malformed percent-escape. */
  function FieldText(form: Form, key: string, variant: Variant, decode: string -> Option<string>): Option<string> {
    match Field(form, key)
    case Some(Str(raw)) => decode(StripLineEnd(variant, raw))
    case _ => None
  }

  /** The decoded values of the kept keys among `ks`, in the order of `ks`;
      `None` when any key of `ks`, kept or not, throws. */
  function Pieces(form: Form, ks: seq<string>, variant: Variant, decode: string -> Option<string>): (r: Option<seq<string>>)
    ensures r.Some? <==> forall i :: 0 <= i < |ks| ==> FieldText(form, ks[i], variant, decode).Some?
    ensures r.Some? ==> |r.value| <= |ks|
    decreases |ks|
  {
    if ks == [] then Some([])
    else
      match Pieces(form, ks[..|ks| - 1], variant, decode)
      case None => None
      case Some(vs) =>
        match FieldText(form, ks[|ks| - 1], variant, decode)
        case None => None
        case Some(v) => Some(if Excluded(variant, ks[|ks| - 1]) then vs else vs + [v])
  }

  /** The store key as the string concatenation sees it: `undefined?.replace`
      is `undefined`, which `+=` turns into the text "undefined". */
  function StoreKeyText(storeKey: Option<string>): string {
    match storeKey
    case None => "undefined"
    case Some(k) => k
  }

  function KeyText(storeKey: Option<string>): string {
    match storeKey
    case None => "undefined"
    case Some(k) => Escape(k)
  }

  /** The decoded kept values in hashing order. */
  function KeptValues(form: Form, variant: Variant, decode: string -> Option<string>): Option<seq<string>> {
    Pieces(form, SortKeys(Keys(form)), variant, decode)
  }

  /** `formData.hasOwnProperty(key)` finds the body's own `hasOwnProperty`
      field when there is one (a JSON body can carry it) before the method
      inherited from `Object.prototype`; no parsed value can be called, so
      the first call throws. */
  predicate ShadowsHasOwnProperty(form: Form) {
    Field(form, "hasOwnProperty").Some?
  }

  /** The text that is hashed (`hashval`), or `None` if building it throws. */
  function HashString(form: Form, variant: Variant, env: HashEnv): Option<string> {
    if ShadowsHasOwnProperty(form) then None
    else
      match KeptValues(form, variant, env.decodeUri)
      case None => None
      case Some(vs) => Some(Join(vs) + KeyText(env.storeKey))
  }

  /** The verdict: the raw `HASH` field equals the computed digest exactly,
      and nothing threw on the way. */
  predicate Verify(form: Form, variant: Variant, env: HashEnv)
    ensures Verify(form, variant, env) ==>
              HashString(form, variant, env).Some? && !ShadowsHasOwnProperty(form) &&
              Field(form, "HASH").Some? && Field(form, "HASH").value.Str?
  {
    match HashString(form, variant, env)
    case None => false
    case Some(h) => Field(form, "HASH") == Some(Str(env.digest(h)))
  }

  /** `verifyCMIHash` as the handlers run it: collect the own keys, sort
      them in place, accumulate `hashval` field by field, append the escaped
      store key, hash and compare. A throw anywhere is caught and yields
      `false`. */
  method VerifyCMIHash(form: Form, variant: Variant, env: HashEnv) returns (ok: bool)
    ensures ok == Verify(form, variant, env)
  {
    var keys := OwnKeys(form);
    if keys.None? {
      return false;
    }
    var postParams := keys.value;
    SortInPlace(postParams);
    assert postParams[..] == SortKeys(Keys(form));
    var hashval := HashValues(form, postParams, variant, env.decodeUri);
    ghost var kept := KeptValues(form, variant, env.decodeUri);
    if hashval.None? {
      assert kept.None?;
      return false;
    }
    assert kept == Some(Pieces(form, postParams[..], variant, env.decodeUri).value);
    var full := hashval.value + KeyText(env.storeKey);
    assert HashString(form, variant, env) == Some(full);
    var actualHash := env.digest(full);
    var retrievedHash := Field(form, "HASH");
    ok := retrievedHash == Some(Str(actualHash));
  }

  /** The `for ... in` loop that pushes every own key of the body; `None`
      when the `hasOwnProperty` call throws. */
  method OwnKeys(form: Form) returns (postParams: Option<array<string>>)
    ensures postParams.None? <==> ShadowsHasOwnProperty(form)
    ensures postParams.Some? ==> fresh(postParams.value) && postParams.value[..] == Keys(form)
  {
    var keys := new string[|form|];
    var n := 0;
    while n < |form|
      invariant 0 <= n <= |form|
      invariant keys[..n] == Keys(form)[..n]
      invariant n > 0 ==> !ShadowsHasOwnProperty(form)
    {
      if ShadowsHasOwnProperty(form) {
        return None;
      }
      keys[n] := form[n].0;
      n := n + 1;
    }
    assert keys[..] == keys[..n];
    return Some(keys);
  }

  /** The `forEach` over the sorted keys: `value|` for each kept field, or
      `None` as soon as a field throws. */
  method HashValues(form: Form, postParams: array<string>, variant: Variant, decode: string -> Option<string>)
    returns (hashval: Option<string>)
    ensures hashval.None? <==> Pieces(form, postParams[..], variant, decode).None?
    ensures hashval.Some? ==> hashval.value == Join(Pieces(form, postParams[..], variant, decode).value)
  {
    ghost var sorted := postParams[..];
    var acc := "";
    ghost var kept: seq<string> := [];
    var i := 0;
    while i < postParams.Length
      invariant 0 <= i <= postParams.Length
      invariant Pieces(form, sorted[..i], variant, decode) == Some(kept)
      invariant acc == Join(kept)
    {
      var param := postParams[i];
      PiecesNext(form, sorted, i, variant, decode);
      var raw := Field(form, param);
      if !(raw.Some? && raw.value.Str?) {
        // `.replace` on a value that is not a string throws.
        PiecesStopsAtFailure(form, sorted, i, variant, decode);
        return None;
      }
      var paramValue := decode(StripLineEnd(variant, raw.value.s));
      if paramValue.None? {
        // `decodeURIComponent` throws on a malformed escape.
        PiecesStopsAtFailure(form, sorted, i, variant, decode);
        return None;
      }
      var escapedParamValue := Escape(paramValue.value);
      if !Excluded(variant, param) {
        ghost var before := kept;
        acc := acc + escapedParamValue + "|";
        kept := kept + [paramValue.value];
        assert kept[..|kept| - 1] == before;
      }
      i := i + 1;
    }
    assert sorted[..postParams.Length] == sorted;
    hashval := Some(acc);
  }

  /** `Pieces` over one more key. */
  lemma PiecesNext(form: Form, ks: seq<string>, i: nat, variant: Variant, decode: string -> Option<string>)
    requires i < |ks|
    ensures Pieces(form, ks[..i + 1], variant, decode) ==
              match Pieces(form, ks[..i], variant, decode)
              case None => None
              case Some(vs) =>
                match FieldText(form, ks[i], variant, decode)
                case None => None
                case Some(v) => Some(if Excluded(variant, ks[i]) then vs else vs + [v])
  {
    assert ks[..i + 1][..i] == ks[..i];
  }

  lemma {:induction false} PiecesNoneExtends(form: Form, ks: seq<string>, j: nat, variant: Variant, decode: string -> Option<string>)
    requires j <= |ks| && Pieces(form, ks[..j], variant, decode).None?
    ensures Pieces(form, ks, variant, decode).None?
    decreases |ks| - j
  {
    if j < |ks| {
      assert ks[..j + 1][..j] == ks[..j];
      PiecesNoneExtends(form, ks, j + 1, variant, decode);
    } else {
      assert ks[..j] == ks;
    }
  }

  lemma PiecesStopsAtFailure(form: Form, ks: seq<string>, i: nat, variant: Variant, decode: string -> Option<string>)
    requires i < |ks| && FieldText(form, ks[i], variant, decode).None?
    ensures Pieces(form, ks, variant, decode).None?
  {
    assert ks[..i + 1][..i] == ks[..i];
    PiecesNoneExtends(form, ks, i + 1, variant, decode);
  }

  /** Line ends in the store-backed copy: one final `\n` goes, then one
      final `\r`; a value ending in neither is left alone. */
  lemma StoreBackedStripRules(raw: string)
    ensures StripLineEnd(StoreBacked, raw + "\r\n") == raw
    ensures StripLineEnd(StoreBacked, raw + "\n") == DropTrailing(raw, '\r')
    ensures StripLineEnd(StoreBacked, raw + "\r") == raw
    ensures |raw| == 0 || (raw[|raw| - 1] != '\n' && raw[|raw| - 1] != '\r') ==>
              StripLineEnd(StoreBacked, raw) == raw
  {
    assert (raw + "\r\n")[..|raw| + 1] == raw + "\r";
    assert (raw + "\r")[..|raw|] == raw;
    assert (raw + "\n")[..|raw|] == raw;
  }

  /** Line ends in the stateless copy: only one final `\n` goes, so a final
      `\r` stays. */
  lemma StatelessStripRules(raw: string)
    ensures StripLineEnd(Stateless, raw + "\n") == raw
    ensures StripLineEnd(Stateless, raw + "\r\n") == raw + "\r"
    ensures StripLineEnd(Stateless, raw + "\r") == raw + "\r"
    ensures |raw| == 0 || raw[|raw| - 1] != '\n' ==> StripLineEnd(Stateless, raw) == raw
  {
    assert (raw + "\r\n")[..|raw| + 1] == raw + "\r";
    assert (raw + "\n")[..|raw|] == raw;
  }

  /** `HASH`, `hash`, `Encoding`, ... are left out in both copies; the
      fields the gateway signs are kept. */
  lemma ExclusionRules(variant: Variant)
    ensures Excluded(variant, "HASH") && Excluded(variant, "hash")
    ensures Excluded(variant, "encoding") && Excluded(variant, "Encoding")
    ensures !Excluded(variant, "ProcReturnCode") && !Excluded(variant, "oid")
  {
    assert Lower("HASH") == "hash";
    assert Lower("Encoding") == "encoding";
    assert Lower("ProcReturnCode")[0] == 'p';
    assert |Lower("oid")| == 3;
  }

  /** Only the stateless copy leaves `customData` out, in any letter case. */
  lemma StatelessExcludesCustomData()
    ensures Excluded(Stateless, "customData") && Excluded(Stateless, "CUSTOMDATA")
    ensures !Excluded(StoreBacked, "customData")
  {
    assert Lower("customData") == "customdata";
    assert Lower("CUSTOMDATA") == "customdata";
  }

  /** Exclusion looks only at the lower-cased name: two spellings the
      comparator calls equal are both kept or both left out. */
  lemma ExclusionIgnoresCase(variant: Variant, a: string, b: string)
    ensures SameCase(a, b) ==> (Excluded(variant, a) <==> Excluded(variant, b))
  {
  }

  /** The stateless copy leaves out exactly what the store-backed copy
      leaves out, plus `customdata` in any letter case. */
  lemma StatelessExclusion(key: string)
    ensures Excluded(Stateless, key) <==> Excluded(StoreBacked, key) || Lower(key) == "customdata"
  {
  }

  lemma {:induction false} PiecesNoneIfAnyFails(form: Form, ks: seq<string>, k: string, variant: Variant, decode: string -> Option<string>)
    requires k in ks && FieldText(form, k, variant, decode).None?
    ensures Pieces(form, ks, variant, decode).None?
  {
    var i :| 0 <= i < |ks| && ks[i] == k;
    PiecesStopsAtFailure(form, ks, i, variant, decode);
  }

  /** Any field that throws, including `HASH` and the left-out fields, makes
      verification fail; so does a missing `HASH`. */
  lemma VerifyRejects(form: Form, variant: Variant, env: HashEnv, i: nat)
    requires DistinctKeys(form) && i < |form|
    ensures form[i].1.NonString? ==> !Verify(form, variant, env)
    ensures form[i].1.Str? && env.decodeUri(StripLineEnd(variant, form[i].1.s)).None? ==>
              !Verify(form, variant, env)
    ensures Field(form, "HASH").None? ==> !Verify(form, variant, env)
  {
    FieldAt(form, i);
    if Verify(form, variant, env) {
      assert Keys(form)[i] == form[i].0;
      HashedFieldsDecode(form, form[i].0, variant, env);
    }
  }

  /** Every accepted body carries a string `HASH`, does not shadow
      `hasOwnProperty`, and every one of its fields reads as a decodable
      string; no index and no distinct-keys assumption is needed. */
  lemma {:induction false} VerifiedFormIsWellFormed(form: Form, variant: Variant, env: HashEnv)
    requires Verify(form, variant, env)
    ensures Field(form, "HASH").Some? && Field(form, "HASH").value.Str?
    ensures !ShadowsHasOwnProperty(form)
    ensures forall k :: k in Keys(form) ==> FieldText(form, k, variant, env.decodeUri).Some?
  {
    forall k | k in Keys(form)
      ensures FieldText(form, k, variant, env.decodeUri).Some?
    {
      HashedFieldsDecode(form, k, variant, env);
    }
  }

  /** Pieces agree when every kept key reads the same and every left-out key
      throws in both or in neither. */
  lemma {:induction false} PiecesAgree(f: Form, g: Form, ks: seq<string>, variant: Variant, decode: string -> Option<string>)
    requires forall k :: k in ks && Excluded(variant, k) ==>
               FieldText(f, k, variant, decode).Some? == FieldText(g, k, variant, decode).Some?
    requires forall k :: k in ks && !Excluded(variant, k) ==>
               FieldText(f, k, variant, decode) == FieldText(g, k, variant, decode)
    ensures Pieces(f, ks, variant, decode) == Pieces(g, ks, variant, decode)
    decreases |ks|
  {
    if ks != [] {
      PiecesAgree(f, g, ks[..|ks| - 1], variant, decode);
    }
  }

  /** The `hasOwnProperty` field itself takes part in the hash string. */
  lemma HasOwnPropertyKept(variant: Variant)
    ensures !Excluded(variant, "hasOwnProperty")
  {
    assert Lower("hasOwnProperty") == "hasownproperty";
  }

  /** Changing the value of a left-out field to another value that decodes
      does not change the hash string. */
  lemma ExcludedFieldIgnored(form: Form, i: nat, w: string, variant: Variant, env: HashEnv)
    requires DistinctKeys(form) && i < |form| && Excluded(variant, form[i].0)
    requires FieldText(form, form[i].0, variant, env.decodeUri).Some?
    requires env.decodeUri(StripLineEnd(variant, w)).Some?
    ensures HashString(form[i := (form[i].0, Str(w))], variant, env) == HashString(form, variant, env)
  {
    var key := form[i].0;
    var form' := form[i := (key, Str(w))];
    assert Keys(form') == Keys(form);
    assert DistinctKeys(form');
    FieldAt(form', i);
    forall k | k != key
      ensures FieldText(form', k, variant, env.decodeUri) == FieldText(form, k, variant, env.decodeUri)
    {
      FieldOtherKey(form, i, Str(w), k);
    }
    HasOwnPropertyKept(variant);
    FieldOtherKey(form, i, Str(w), "hasOwnProperty");
    PiecesAgree(form', form, SortKeys(Keys(form)), variant, env.decodeUri);
    SameKeptSameHashString(form', form, variant, env);
  }

  /** Completeness: a body whose `HASH` holds the digest of its own hash
      string verifies (provided that digest survives decoding, as base64
      text does). */
  lemma SignedFormVerifies(form: Form, i: nat, variant: Variant, env: HashEnv)
    requires DistinctKeys(form) && i < |form| && form[i].0 == "HASH"
    requires HashString(form, variant, env).Some?
    requires env.decodeUri(StripLineEnd(variant, env.digest(HashString(form, variant, env).value))).Some?
    ensures Verify(form[i := ("HASH", Str(env.digest(HashString(form, variant, env).value)))], variant, env)
  {
    var h := HashString(form, variant, env).value;
    var form' := form[i := ("HASH", Str(env.digest(h)))];
    ExclusionRules(variant);
    FieldAt(form, i);
    assert Keys(form)[i] == "HASH";
    HashedFieldsDecode(form, "HASH", variant, env);
    ExcludedFieldIgnored(form, i, env.digest(h), variant, env);
    assert DistinctKeys(form');
    FieldAt(form', i);
  }

  /** Changing the received `HASH` to anything else makes a verified body fail. */
  lemma HashTamperRejected(form: Form, i: nat, w: Value, variant: Variant, env: HashEnv)
    requires DistinctKeys(form) && i < |form| && form[i].0 == "HASH"
    requires Verify(form, variant, env) && w != form[i].1
    ensures !Verify(form[i := ("HASH", w)], variant, env)
  {
    var form' := form[i := ("HASH", w)];
    assert DistinctKeys(form');
    FieldAt(form, i);
    FieldAt(form', i);
    ExclusionRules(variant);
    VerifyRejects(form', variant, env, i);
    if w.Str? && env.decodeUri(StripLineEnd(variant, w.s)).Some? {
      if FieldText(form, "HASH", variant, env.decodeUri).None? {
        VerifyRejects(form, variant, env, i);
      } else {
        ExcludedFieldIgnored(form, i, w.s, variant, env);
      }
    }
  }

  /** One step of `Pieces`: the last key adds its decoded value unless it
      is left out. */
  lemma PiecesStep(form: Form, ks: seq<string>, variant: Variant, decode: string -> Option<string>)
    requires ks != [] && Pieces(form, ks, variant, decode).Some?
    ensures Pieces(form, ks[..|ks| - 1], variant, decode).Some?
    ensures FieldText(form, ks[|ks| - 1], variant, decode).Some?
    ensures Pieces(form, ks, variant, decode).value ==
              Pieces(form, ks[..|ks| - 1], variant, decode).value +
              (if Excluded(variant, ks[|ks| - 1]) then [] else [FieldText(form, ks[|ks| - 1], variant, decode).value])
  {
  }

  lemma SuffixCancel(a: seq<string>, b: seq<string>, e: seq<string>)
    ensures a + e == b + e ==> a == b
  {
    if a + e == b + e {
      assert a == (a + e)[..|a|] && b == (b + e)[..|b|];
    }
  }

  /** If two bodies differ in one kept key and agree elsewhere, their kept
      value lists differ. */
  lemma {:induction false} PiecesDiffer(f: Form, g: Form, ks: seq<string>, key: string, variant: Variant, decode: string -> Option<string>)
    requires key in ks && !Excluded(variant, key)
    requires FieldText(f, key, variant, decode) != FieldText(g, key, variant, decode)
    requires forall k :: k in ks && k != key ==> FieldText(f, k, variant, decode) == FieldText(g, k, variant, decode)
    requires Pieces(f, ks, variant, decode).Some? && Pieces(g, ks, variant, decode).Some?
    ensures Pieces(f, ks, variant, decode) != Pieces(g, ks, variant, decode)
    decreases |ks|
  {
    var init, last := ks[..|ks| - 1], ks[|ks| - 1];
    PiecesStep(f, ks, variant, decode);
    PiecesStep(g, ks, variant, decode);
    var vs, ws := Pieces(f, ks, variant, decode).value, Pieces(g, ks, variant, decode).value;
    var vs0, ws0 := Pieces(f, init, variant, decode).value, Pieces(g, init, variant, decode).value;
    if last == key {
      assert vs[|vs| - 1] != ws[|ws| - 1];
    } else {
      assert key in init;
      PiecesDiffer(f, g, init, key, variant, decode);
      assert vs0 != ws0;
      var extra := if Excluded(variant, last) then [] else [FieldText(f, last, variant, decode).value];
      assert vs == vs0 + extra && ws == ws0 + extra;
      SuffixCancel(vs0, ws0, extra);
    }
  }

  /** The key as it ends the hash string is the escape of the text the
      concatenation sees. */
  lemma KeyTextEscapes(storeKey: Option<string>)
    ensures KeyText(storeKey) == Escape(StoreKeyText(storeKey))
  {
    if storeKey.None? {
      EscapePlain("undefined");
    }
  }

  /** The hash string reads back into the kept values and the store key. */
  lemma HashStringParses(form: Form, variant: Variant, env: HashEnv)
    requires HashString(form, variant, env).Some?
    ensures ParseCanonical(HashString(form, variant, env).value) ==
              Some((KeptValues(form, variant, env.decodeUri).value, StoreKeyText(env.storeKey)))
  {
    KeyTextEscapes(env.storeKey);
    CanonicalRoundTrip(KeptValues(form, variant, env.decodeUri).value, StoreKeyText(env.storeKey));
  }

  /** A hash string exists only if every field decodes. */
  lemma HashedFieldsDecode(form: Form, k: string, variant: Variant, env: HashEnv)
    requires HashString(form, variant, env).Some? && k in Keys(form)
    ensures FieldText(form, k, variant, env.decodeUri).Some?
  {
    SortKeysPermutation(Keys(form));
    assert k in multiset(SortKeys(Keys(form)));
    if FieldText(form, k, variant, env.decodeUri).None? {
      PiecesNoneIfAnyFails(form, SortKeys(Keys(form)), k, variant, env.decodeUri);
      assert false;
    }
  }

  /** Replacing one field's value keeps the keys and every other field. */
  lemma ReplacedField(form: Form, i: nat, w: string, variant: Variant, decode: string -> Option<string>)
    requires DistinctKeys(form) && i < |form|
    ensures Keys(form[i := (form[i].0, Str(w))]) == Keys(form)
    ensures DistinctKeys(form[i := (form[i].0, Str(w))])
    ensures FieldText(form[i := (form[i].0, Str(w))], form[i].0, variant, decode) == decode(StripLineEnd(variant, w))
    ensures forall k :: k != form[i].0 ==>
              FieldText(form[i := (form[i].0, Str(w))], k, variant, decode) == FieldText(form, k, variant, decode)
  {
    var form' := form[i := (form[i].0, Str(w))];
    assert Keys(form') == Keys(form);
    assert DistinctKeys(form');
    FieldAt(form', i);
    forall k | k != form[i].0
      ensures FieldText(form', k, variant, decode) == FieldText(form, k, variant, decode)
    {
      FieldOtherKey(form, i, Str(w), k);
    }
  }

  /** Changing the decoded value of a kept field changes the hash string, so
      a tampered body passes only if the digest collides on two different
      texts. */
  lemma KeptFieldTamperNeedsCollision(form: Form, i: nat, w: string, variant: Variant, env: HashEnv)
    requires DistinctKeys(form) && i < |form| && !Excluded(variant, form[i].0)
    requires FieldText(form, form[i].0, variant, env.decodeUri) != env.decodeUri(StripLineEnd(variant, w))
    requires HashString(form, variant, env).Some?
    requires HashString(form[i := (form[i].0, Str(w))], variant, env).Some?
    ensures HashString(form, variant, env) != HashString(form[i := (form[i].0, Str(w))], variant, env)
    ensures Verify(form, variant, env) && Verify(form[i := (form[i].0, Str(w))], variant, env) ==>
              env.digest(HashString(form, variant, env).value) ==
              env.digest(HashString(form[i := (form[i].0, Str(w))], variant, env).value)
  {
    var key := form[i].0;
    var form' := form[i := (key, Str(w))];
    ReplacedField(form, i, w, variant, env.decodeUri);
    ExclusionRules(variant);
    assert key != "HASH";
    FieldOtherKey(form, i, Str(w), "HASH");
    var ks := SortKeys(Keys(form));
    SortKeysPermutation(Keys(form));
    assert key in multiset(ks);
    PiecesDiffer(form, form', ks, key, variant, env.decodeUri);
    var vs, ws := KeptValues(form, variant, env.decodeUri).value, KeptValues(form', variant, env.decodeUri).value;
    KeyTextEscapes(env.storeKey);
    if Join(vs) + KeyText(env.storeKey) == Join(ws) + KeyText(env.storeKey) {
      CanonicalInjective(vs, StoreKeyText(env.storeKey), ws, StoreKeyText(env.storeKey));
    }
  }

  /** With the store key unset the hash string ends in the public text
      "undefined": verification does not fail closed, and a sender who
      signs with the key "undefined" is accepted. */
  lemma UnsetStoreKeyFailsOpen(form: Form, variant: Variant, env: HashEnv)
    requires env.storeKey.None?
    ensures HashString(form, variant, env) == HashString(form, variant, env.(storeKey := Some("undefined")))
    ensures Verify(form, variant, env) == Verify(form, variant, env.(storeKey := Some("undefined")))
  {
    EscapePlain("undefined");
    assert KeyText(env.storeKey) == KeyText(Some("undefined"));
  }

  lemma DistinctCount(s: seq<string>, x: string)
    requires CaseDistinct(s)
    ensures multiset(s)[x] == if x in s then 1 else 0
    decreases |s|
  {
    if s != [] {
      var init := s[..|s| - 1];
      assert CaseDistinct(init);
      DistinctCount(init, x);
      assert s == init + [s[|s| - 1]];
      if s[|s| - 1] == x {
        assert x !in init;
      }
    }
  }

  /** For bodies whose keys are pairwise distinct up to case, the arrival
      order of the fields does not affect the hash string or the verdict. */
  lemma OrderIndependent(f: Form, g: Form, variant: Variant, env: HashEnv)
    requires CaseDistinct(Keys(f)) && CaseDistinct(Keys(g))
    requires forall p :: p in f <==> p in g
    ensures HashString(f, variant, env) == HashString(g, variant, env)
    ensures Verify(f, variant, env) == Verify(g, variant, env)
  {
    SameFormsAgree(f, g, variant, env.decodeUri);
    SameReadsSameHash(f, g, variant, env);
  }

  /** Two such bodies agree on every read the hash string and the verdict
      look at. */
  lemma {:induction false} SameFormsAgree(f: Form, g: Form, variant: Variant, decode: string -> Option<string>)
    requires CaseDistinct(Keys(f)) && CaseDistinct(Keys(g))
    requires forall p :: p in f <==> p in g
    ensures KeptValues(f, variant, decode) == KeptValues(g, variant, decode)
    ensures Field(f, "hasOwnProperty") == Field(g, "hasOwnProperty")
    ensures Field(f, "HASH") == Field(g, "HASH")
  {
    SameKeyMultiset(f, g);
    SortKeysOrderIndependent(Keys(f), Keys(g));
    CaseDistinctKeysDistinct(f);
    CaseDistinctKeysDistinct(g);
    SameFields(f, g);
    SameReadsSameKept(f, g, variant, decode);
  }

  /** Bodies that agree on the kept values, on `hasOwnProperty` and on
      `HASH` hash alike. */
  lemma {:induction false} SameReadsSameHash(f: Form, g: Form, variant: Variant, env: HashEnv)
    requires KeptValues(f, variant, env.decodeUri) == KeptValues(g, variant, env.decodeUri)
    requires Field(f, "hasOwnProperty") == Field(g, "hasOwnProperty")
    requires Field(f, "HASH") == Field(g, "HASH")
    ensures HashString(f, variant, env) == HashString(g, variant, env)
    ensures Verify(f, variant, env) == Verify(g, variant, env)
  {
    SameKeptSameHashString(f, g, variant, env);
  }

  lemma {:induction false} SameKeptSameHashString(f: Form, g: Form, variant: Variant, env: HashEnv)
    requires KeptValues(f, variant, env.decodeUri) == KeptValues(g, variant, env.decodeUri)
    requires ShadowsHasOwnProperty(f) == ShadowsHasOwnProperty(g)
    ensures HashString(f, variant, env) == HashString(g, variant, env)
  {
  }

  lemma {:induction false} SameReadsSameKept(f: Form, g: Form, variant: Variant, decode: string -> Option<string>)
    requires forall k :: Field(f, k) == Field(g, k)
    requires SortKeys(Keys(f)) == SortKeys(Keys(g))
    ensures KeptValues(f, variant, decode) == KeptValues(g, variant, decode)
  {
    var ks := SortKeys(Keys(f));
    forall k | k in ks
      ensures FieldText(f, k, variant, decode) == FieldText(g, k, variant, decode)
    {
      assert Field(f, k) == Field(g, k);
    }
    PiecesAgree(f, g, ks, variant, decode);
  }

  lemma CaseDistinctKeysDistinct(f: Form)
    requires CaseDistinct(Keys(f))
    ensures DistinctKeys(f)
  {
    forall i, j | 0 <= i < j < |f| ensures f[i].0 != f[j].0 {
      assert !SameCase(Keys(f)[i], Keys(f)[j]);
    }
  }

  /** Bodies holding the same pairs, each key once, read alike. */
  lemma SameFields(f: Form, g: Form)
    requires DistinctKeys(f) && DistinctKeys(g)
    requires forall p :: p in f <==> p in g
    ensures forall k :: Field(f, k) == Field(g, k)
  {
    forall k ensures Field(f, k) == Field(g, k) {
      if Field(f, k).Some? {
        FieldIffMember(f, k, Field(f, k).value);
        FieldIffMember(g, k, Field(f, k).value);
      } else if Field(g, k).Some? {
        FieldIffMember(f, k, Field(g, k).value);
        FieldIffMember(g, k, Field(g, k).value);
      }
    }
  }

  lemma SameKeyMultiset(f: Form, g: Form)
    requires CaseDistinct(Keys(f)) && CaseDistinct(Keys(g))
    requires forall p :: p in f <==> p in g
    ensures multiset(Keys(f)) == multiset(Keys(g))
  {
    forall x ensures multiset(Keys(f))[x] == multiset(Keys(g))[x] {
      DistinctCount(Keys(f), x);
      DistinctCount(Keys(g), x);
      if x in Keys(f) {
        var i :| 0 <= i < |f| && Keys(f)[i] == x;
        assert f[i] in g;
      }
      if x in Keys(g) {
        var i :| 0 <= i < |g| && Keys(g)[i] == x;
        assert g[i] in f;
      }
    }
  }
}
