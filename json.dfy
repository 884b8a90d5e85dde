/** A parsed JSON document, as `serde_json::Value` holds it, with the lookups,
    the field assignment and the compact serialisation (`Value::to_string`)
    that the envelope normaliser uses. */
module Json {
  import opened Wrappers
  import Text

  /** An object lists its members in the map's iteration order. Numbers are
      integers only. */
  datatype Value =
    | Null
    | Bool(b: bool)
    | Number(n: int)
    | Str(s: string)
    | Arr(items: seq<Value>)
    | Obj(fields: seq<(string, Value)>)

  /** Position of the first member named `key`, or `|fields|` when there is none. */
  function KeyIndex(fields: seq<(string, Value)>, key: string): (i: nat)
    ensures i <= |fields|
    ensures forall j :: 0 <= j < i ==> fields[j].0 != key
    ensures i < |fields| ==> fields[i].0 == key
  {
    if fields == [] then 0
    else if fields[0].0 == key then 0
    else 1 + KeyIndex(fields[1..], key)
  }

  /** The first position holding `key` is determined by the two facts that
      characterise it. */
  lemma KeyIndexUnique(fields: seq<(string, Value)>, key: string, j: nat)
    requires j <= |fields|
    requires forall m :: 0 <= m < j ==> fields[m].0 != key
    requires j < |fields| ==> fields[j].0 == key
    ensures KeyIndex(fields, key) == j
  {
  }

  /** `value.get(key)`: the member named `key` of an object; `None` for a
      missing member and for every value that is not an object. */
  function Get(v: Value, key: string): (r: Option<Value>)
    ensures r.Some? <==> v.Obj? && exists j :: 0 <= j < |v.fields| && v.fields[j].0 == key
    ensures r.Some? ==> (key, r.value) in v.fields
  {
    match v
    case Obj(fields) =>
      var i := KeyIndex(fields, key);
      if i < |fields| then Some(fields[i].1) else None
    case _ => None
  }

  /** `object[key] = x`: overwrite the member named `key` where it stands, or
      add it at the end when the object has none. */
  function Put(fields: seq<(string, Value)>, key: string, x: Value): (r: seq<(string, Value)>)
    ensures (key, x) in r
    ensures KeyIndex(fields, key) < |fields| ==> |r| == |fields|
    ensures KeyIndex(fields, key) == |fields| ==> r == fields + [(key, x)]
    ensures forall j :: 0 <= j < |fields| && fields[j].0 != key ==> r[j] == fields[j]
  {
    var i := KeyIndex(fields, key);
    if i < |fields| then
      var r := fields[i := (key, x)];
      assert r[i] == (key, x);
      r
    else fields + [(key, x)]
  }

  /** The member names of an object, in order. */
  function Keys(fields: seq<(string, Value)>): (ks: seq<string>)
    ensures |ks| == |fields|
    ensures forall j :: 0 <= j < |fields| ==> ks[j] == fields[j].0
  {
    seq(|fields|, j requires 0 <= j < |fields| => fields[j].0)
  }

  /** After `object[key] = x`, `key` maps to `x`, every other name maps to what
      it mapped to before, and an existing member keeps its place. */
  lemma PutGet(fields: seq<(string, Value)>, key: string, x: Value)
    ensures Get(Obj(Put(fields, key, x)), key) == Some(x)
    ensures forall k :: k != key ==> Get(Obj(Put(fields, key, x)), k) == Get(Obj(fields), k)
    ensures Get(Obj(fields), key).Some? ==> Keys(Put(fields, key, x)) == Keys(fields)
  {
    var i := KeyIndex(fields, key);
    var put := Put(fields, key, x);
    KeyIndexUnique(put, key, i);
    forall k | k != key
      ensures Get(Obj(put), k) == Get(Obj(fields), k)
    {
      var j := KeyIndex(fields, k);
      if j < |fields| {
        assert put[j] == fields[j];
        KeyIndexUnique(put, k, j);
      } else {
        KeyIndexUnique(put, k, |put|);
      }
    }
  }

  /** A member added after the existing ones does not change what any other
      name looks up. */
  lemma GetAppendOther(fields: seq<(string, Value)>, extra: (string, Value), k: string)
    requires k != extra.0
    ensures Get(Obj(fields + [extra]), k) == Get(Obj(fields), k)
  {
    var all := fields + [extra];
    var j := KeyIndex(fields, k);
    if j < |fields| {
      assert all[j] == fields[j];
      KeyIndexUnique(all, k, j);
    } else {
      KeyIndexUnique(all, k, |all|);
    }
  }

  /** A decimal digit. */
  function Digit(d: nat): (ch: char)
    requires d < 10
    ensures '0' <= ch <= '9'
  {
    ('0' as int + d) as char
  }

  /** A hexadecimal digit, lower case as serde_json writes it. */
  function HexDigit(d: nat): char
    requires d < 16
  {
    "0123456789abcdef"[d]
  }

  function NatToString(n: nat): (r: string)
    ensures |r| >= 1
    ensures '0' <= r[0] <= '9'
  {
    if n < 10 then [Digit(n)] else NatToString(n / 10) + [Digit(n % 10)]
  }

  function IntToString(n: int): string
  {
    if n < 0 then "-" + NatToString(-n) else NatToString(n)
  }

  /** serde_json's escape of one character inside a string literal: the quote,
      the backslash and the control characters below U+0020. */
  function EscapeChar(ch: char): string
  {
    if ch == '"' then "\\\""
    else if ch == '\\' then "\\\\"
    else if ch == '\n' then "\\n"
    else if ch == '\r' then "\\r"
    else if ch == '\t' then "\\t"
    else if ch == '\U{8}' then "\\b"
    else if ch == '\U{C}' then "\\f"
    else if ch < ' ' then "\\u00" + [HexDigit(ch as nat / 16), HexDigit(ch as nat % 16)]
    else [ch]
  }

  function Escape(s: string): string
  {
    if s == [] then [] else EscapeChar(s[0]) + Escape(s[1..])
  }

  function Quote(s: string): string
  {
    "\"" + Escape(s) + "\""
  }

  /** `value.to_string()`: the compact JSON text of a value. */
  function Serialize(v: Value): (text: string)
    ensures |text| >= 1
    ensures v.Str? ==> text[0] == '"' && text[|text| - 1] == '"' && |text| >= 2
    ensures v.Arr? ==> text[0] == '[' && text[|text| - 1] == ']'
    ensures v.Obj? ==> text[0] == '{' && text[|text| - 1] == '}'
    ensures v.Number? ==> text[0] == '-' || '0' <= text[0] <= '9'
    ensures v.Null? || v.Bool? ==> 'a' <= text[0] <= 'z'
    decreases v
  {
    match v
    case Null => "null"
    case Bool(b) => if b then "true" else "false"
    case Number(n) => IntToString(n)
    case Str(s) => Quote(s)
    case Arr(items) =>
      "[" + Text.Join(seq(|items|, i requires 0 <= i < |items| => Serialize(items[i])), ",") + "]"
    case Obj(fields) =>
      var members := seq(|fields|, i requires 0 <= i < |fields| =>
                           assert fields[i] in fields;
                           Quote(fields[i].0) + ":" + Serialize(fields[i].1));
      "{" + Text.Join(members, ",") + "}"
  }

  /** The diagnostic shown for a value that does not decode: the first 100
      characters of its text, or all of it when it is shorter. */
  function Snippet(text: string): (r: string)
    ensures |r| == Min(100, |text|)
    ensures r == text[..|r|]
    ensures r == text <==> |text| <= 100
  {
    text[..Min(100, |text|)]
  }
}
