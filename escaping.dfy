/** Escaping of values and of the store key before they enter the hash
    string, and the shape of that string: every kept value escaped and
    followed by `|`, then the escaped store key. The parser below is the
    inverse: it shows that the canonical string determines the values and
    the key, which is what makes the separator `|` safe. */
module Escaping {
  import opened Wrappers
  import opened Text

  /** `v.replace(/\\/g, "\\\\").replace(/\|/g, "\\|")`: two global passes,
      backslashes first. */
  function Escape(s: string): (r: string)
    ensures r == EscapeChars(s)
  {
    EscapeIsCharwise(s);
    ReplaceAll(ReplaceAll(s, "\\", "\\\\"), "|", "\\|")
  }

  /** Reference definition, one character at a time. */
  function EscapeChar(c: char): string {
    if c == '\\' then "\\\\" else if c == '|' then "\\|" else [c]
  }

  function EscapeChars(s: string): string
    decreases |s|
  {
    if s == [] then [] else EscapeChar(s[0]) + EscapeChars(s[1..])
  }

  lemma OneCharReplace(c: char, pat: char, rep: string)
    ensures ReplaceAll([c], [pat], rep) == if c == pat then rep else [c]
  {
    assert [c][..1] == [c] && [c][1..] == [];
  }

  /** Escaping backslashes before bars means the second pass never sees a
      backslash it inserted itself: the two passes equal the one-character
      rule. */
  lemma {:induction false} EscapeIsCharwise(s: string)
    ensures ReplaceAll(ReplaceAll(s, "\\", "\\\\"), "|", "\\|") == EscapeChars(s)
    decreases |s|
  {
    if s != [] {
      var c, t := s[0], s[1..];
      assert s == [c] + t;
      ReplaceAllSingleConcat([c], t, "\\", "\\\\");
      OneCharReplace(c, '\\', "\\\\");
      var first := if c == '\\' then "\\\\" else [c];
      assert ReplaceAll(s, "\\", "\\\\") == first + ReplaceAll(t, "\\", "\\\\");
      ReplaceAllSingleConcat(first, ReplaceAll(t, "\\", "\\\\"), "|", "\\|");
      if c == '\\' {
        ReplaceAllSingleConcat("\\", "\\", "|", "\\|");
        OneCharReplace('\\', '|', "\\|");
        assert first == "\\" + "\\";
      } else {
        OneCharReplace(c, '|', "\\|");
      }
      EscapeIsCharwise(t);
    }
  }

  /** The hash string built from the kept values: `value|` for each. */
  function Join(vs: seq<string>): (r: string)
    ensures r == "" <==> vs == []
    decreases |vs|
  {
    if vs == [] then "" else Join(vs[..|vs| - 1]) + Escape(vs[|vs| - 1]) + "|"
  }

  /** Reads a canonical string back: `\x` stands for `x`, a bare `|` ends a
      value, and the text after the last bare `|` is the key. A dangling
      final backslash is not canonical. */
  function ParseFrom(t: string, cur: string, acc: seq<string>): Option<(seq<string>, string)>
    decreases |t|
  {
    if t == [] then Some((acc, cur))
    else if t[0] == '\\' then
      if |t| == 1 then None else ParseFrom(t[2..], cur + [t[1]], acc)
    else if t[0] == '|' then ParseFrom(t[1..], "", acc + [cur])
    else ParseFrom(t[1..], cur + [t[0]], acc)
  }

  function ParseCanonical(t: string): Option<(seq<string>, string)> {
    ParseFrom(t, "", [])
  }

  /** One escaped value, read back: no separator is seen. */
  function Unescape(t: string): Option<string> {
    match ParseCanonical(t)
    case Some((vs, v)) => if vs == [] then Some(v) else None
    case None => None
  }

  /** One escaped character is read back as that character. */
  lemma {:induction false} ParseOneChar(c: char, u: string, cur: string, acc: seq<string>)
    ensures ParseFrom(EscapeChar(c) + u, cur, acc) == ParseFrom(u, cur + [c], acc)
  {
    var t := EscapeChar(c) + u;
    if c == '\\' || c == '|' {
      assert t[0] == '\\' && t[1] == c && t[2..] == u;
    } else {
      assert t[0] == c && t[1..] == u;
    }
  }

  lemma {:induction false} ParseEscaped(v: string, rest: string, cur: string, acc: seq<string>)
    ensures ParseFrom(EscapeChars(v) + rest, cur, acc) == ParseFrom(rest, cur + v, acc)
    decreases |v|
  {
    if v == [] {
      assert EscapeChars(v) + rest == rest && cur + v == cur;
    } else {
      var c := v[0];
      var u := EscapeChars(v[1..]) + rest;
      calc {
        ParseFrom(EscapeChars(v) + rest, cur, acc);
        { assert EscapeChars(v) + rest == EscapeChar(c) + u; }
        ParseFrom(EscapeChar(c) + u, cur, acc);
        { ParseOneChar(c, u, cur, acc); }
        ParseFrom(u, cur + [c], acc);
        { ParseEscaped(v[1..], rest, cur + [c], acc); }
        ParseFrom(rest, cur + [c] + v[1..], acc);
        { assert cur + [c] + v[1..] == cur + v; }
        ParseFrom(rest, cur + v, acc);
      }
    }
  }

  lemma {:induction false} ParseBar(rest: string, cur: string, acc: seq<string>)
    ensures ParseFrom("|" + rest, cur, acc) == ParseFrom(rest, "", acc + [cur])
  {
    assert ("|" + rest)[0] == '|' && ("|" + rest)[1..] == rest;
  }

  lemma {:induction false} JoinLast(vs: seq<string>, rest: string)
    requires vs != []
    ensures Join(vs) + rest == Join(vs[..|vs| - 1]) + (Escape(vs[|vs| - 1]) + ("|" + rest))
  {
  }

  lemma {:induction false} ParseJoined(vs: seq<string>, rest: string, acc: seq<string>)
    ensures ParseFrom(Join(vs) + rest, "", acc) == ParseFrom(rest, "", acc + vs)
    decreases |vs|
  {
    if vs == [] {
      assert Join(vs) + rest == rest && acc + vs == acc;
    } else {
      var init, v := vs[..|vs| - 1], vs[|vs| - 1];
      var tail := EscapeChars(v) + ("|" + rest);
      calc {
        ParseFrom(Join(vs) + rest, "", acc);
        { JoinLast(vs, rest); }
        ParseFrom(Join(init) + tail, "", acc);
        { ParseJoined(init, tail, acc); }
        ParseFrom(tail, "", acc + init);
        { ParseEscaped(v, "|" + rest, "", acc + init); assert "" + v == v; }
        ParseFrom("|" + rest, v, acc + init);
        { ParseBar(rest, v, acc + init); assert acc + init + [v] == acc + vs; }
        ParseFrom(rest, "", acc + vs);
      }
    }
  }

  /** The canonical string determines the kept values and the key. */
  lemma CanonicalRoundTrip(vs: seq<string>, key: string)
    ensures ParseCanonical(Join(vs) + Escape(key)) == Some((vs, key))
  {
    ParseJoined(vs, Escape(key), []);
    ParseEscaped(key, "", "", [] + vs);
    assert EscapeChars(key) + "" == EscapeChars(key);
    assert [] + vs == vs && "" + key == key;
  }

  /** Two canonical strings are equal only when their values and keys are. */
  lemma CanonicalInjective(vs: seq<string>, key: string, ws: seq<string>, key': string)
    requires Join(vs) + Escape(key) == Join(ws) + Escape(key')
    ensures vs == ws && key == key'
  {
    CanonicalRoundTrip(vs, key);
    CanonicalRoundTrip(ws, key');
  }

  /** An escaped value holds no bare separator and unescapes to itself. */
  lemma UnescapeEscape(v: string)
    ensures Unescape(Escape(v)) == Some(v)
  {
    CanonicalRoundTrip([], v);
    assert Join([]) + Escape(v) == Escape(v);
  }

  /** Text with no backslash and no bar is its own escape. */
  lemma {:induction false} EscapePlain(s: string)
    requires forall i :: 0 <= i < |s| ==> s[i] != '\\' && s[i] != '|'
    ensures Escape(s) == s
  {
    EscapeCharsPlain(s);
  }

  lemma {:induction false} EscapeCharsPlain(s: string)
    requires forall i :: 0 <= i < |s| ==> s[i] != '\\' && s[i] != '|'
    ensures EscapeChars(s) == s
    decreases |s|
  {
    if s != [] {
      EscapeCharsPlain(s[1..]);
      assert s == [s[0]] + s[1..];
    }
  }
}
