/** Compact JSON with sorted keys, as `canonical_body` in treeminer/server/command_signing.py prints it. */
module CanonicalJson {
  import opened Options

  /** A JSON document as Python holds it: an object keeps the order in which its keys were inserted.
      `Other` stands for a float and for anything else that is refused. */
  datatype Json =
    | Null
    | Bool(b: bool)
    | Int(n: int)
    | Str(s: string)
    | Arr(items: seq<Json>)
    | Obj(fields: seq<Field>)
    | Other
  datatype Field = Field(key: string, value: Json)

  /** What a document means: an object is a map, so order is gone. */
  datatype Value =
    | VNull
    | VBool(b: bool)
    | VInt(n: int)
    | VStr(s: string)
    | VArr(items: seq<Value>)
    | VObj(fields: map<string, Value>)
    | VOther

  function Meaning(j: Json): Value
    decreases j, 1
  {
    match j
    case Null => VNull
    case Bool(b) => VBool(b)
    case Int(n) => VInt(n)
    case Str(s) => VStr(s)
    case Arr(items) => VArr(Meanings(items))
    case Obj(fields) => VObj(MeaningMap(fields))
    case Other => VOther
  }

  function Meanings(items: seq<Json>): (r: seq<Value>)
    ensures |r| == |items|
    decreases items, 0
  {
    if items == [] then [] else [Meaning(items[0])] + Meanings(items[1..])
  }

  function MeaningMap(fields: seq<Field>): map<string, Value>
    decreases fields, 0
  {
    if fields == [] then map[] else MeaningMap(fields[1..])[fields[0].key := Meaning(fields[0].value)]
  }

  /** Every object has distinct keys, as a dictionary has, and nothing in it is refused. */
  predicate Signable(j: Json)
    decreases j, 1
  {
    match j
    case Arr(items) => SignableItems(items)
    case Obj(fields) => SignableFields(fields)
    case Other => false
    case _ => true
  }

  predicate SignableItems(items: seq<Json>)
    decreases items, 0
  {
    items == [] || (Signable(items[0]) && SignableItems(items[1..]))
  }

  predicate SignableFields(fields: seq<Field>)
    decreases fields, 0
  {
    fields == [] || (Signable(fields[0].value) && !HasKey(fields[1..], fields[0].key) && SignableFields(fields[1..]))
  }

  predicate HasKey(fields: seq<Field>, k: string) {
    exists i :: 0 <= i < |fields| && fields[i].key == k
  }

  // ----- Sorting keys

  /** Python's order on strings: code point by code point. */
  predicate Before(a: string, b: string) {
    if b == "" then false
    else if a == "" then true
    else a[0] < b[0] || (a[0] == b[0] && Before(a[1..], b[1..]))
  }

  lemma {:induction false} BeforeTotal(a: string, b: string)
    ensures a == b || Before(a, b) || Before(b, a)
  {
    if a != "" && b != "" && a[0] == b[0] {
      BeforeTotal(a[1..], b[1..]);
      assert a == [a[0]] + a[1..] && b == [b[0]] + b[1..];
    }
  }

  lemma {:induction false} BeforeIrreflexive(a: string)
    ensures !Before(a, a)
  {
    if a != "" {
      BeforeIrreflexive(a[1..]);
    }
  }

  lemma {:induction false} BeforeTransitive(a: string, b: string, c: string)
    requires Before(a, b) && Before(b, c)
    ensures Before(a, c)
  {
    if a != "" && a[0] == b[0] && b[0] == c[0] {
      BeforeTransitive(a[1..], b[1..], c[1..]);
    }
  }

  function Insert(f: Field, fields: seq<Field>): (r: seq<Field>)
    ensures |r| == |fields| + 1
  {
    if fields == [] then [f]
    else if Before(fields[0].key, f.key) then [fields[0]] + Insert(f, fields[1..])
    else [f] + fields
  }

  /** The document with every object's fields in key order. */
  function Canon(j: Json): Json
    decreases j, 1
  {
    match j
    case Arr(items) => Arr(CanonItems(items))
    case Obj(fields) => Obj(CanonFields(fields))
    case _ => j
  }

  function CanonItems(items: seq<Json>): (r: seq<Json>)
    ensures |r| == |items|
    decreases items, 0
  {
    if items == [] then [] else [Canon(items[0])] + CanonItems(items[1..])
  }

  function CanonFields(fields: seq<Field>): (r: seq<Field>)
    ensures |r| == |fields|
    decreases fields, 0
  {
    if fields == [] then []
    else Insert(Field(fields[0].key, Canon(fields[0].value)), CanonFields(fields[1..]))
  }

  /** Keys strictly increasing. */
  ghost predicate Sorted(fields: seq<Field>) {
    forall i, j :: 0 <= i < j < |fields| ==> Before(fields[i].key, fields[j].key)
  }

  lemma {:induction false} InsertSorted(f: Field, fields: seq<Field>)
    requires Sorted(fields) && !HasKey(fields, f.key)
    ensures Sorted(Insert(f, fields))
    ensures forall k :: HasKey(Insert(f, fields), k) <==> k == f.key || HasKey(fields, k)
  {
    if fields == [] {
      HasKeySplit([f]);
    } else {
      var g := fields[0];
      if Before(g.key, f.key) {
        var rest := fields[1..];
        assert forall k :: HasKey(fields, k) <==> k == g.key || HasKey(rest, k) by { HasKeySplit(fields); }
        InsertSorted(f, rest);
        var r := Insert(f, rest);
        assert Insert(f, fields) == [g] + r;
        forall j | 0 <= j < |r| ensures Before(g.key, r[j].key) {
          assert HasKey(r, r[j].key);
          if r[j].key != f.key {
            var m :| 0 <= m < |rest| && rest[m].key == r[j].key;
            assert rest[m] == fields[m + 1];
          }
        }
        HasKeySplit([g] + r);
      } else {
        BeforeTotal(f.key, g.key);
        forall j | 0 <= j < |fields| ensures Before(f.key, fields[j].key) {
          if j > 0 {
            BeforeTransitive(f.key, g.key, fields[j].key);
          }
        }
        HasKeySplit([f] + fields);
        assert ([f] + fields)[1..] == fields;
      }
    }
  }

  lemma {:induction false} HasKeySplit(fields: seq<Field>)
    requires fields != []
    ensures forall k :: HasKey(fields, k) <==> k == fields[0].key || HasKey(fields[1..], k)
  {
    forall k ensures HasKey(fields, k) <==> k == fields[0].key || HasKey(fields[1..], k) {
      if HasKey(fields[1..], k) {
        var i :| 0 <= i < |fields[1..]| && fields[1..][i].key == k;
        assert fields[i + 1].key == k;
      }
      if HasKey(fields, k) && k != fields[0].key {
        var i :| 0 <= i < |fields| && fields[i].key == k;
        assert fields[1..][i - 1].key == k;
      }
    }
  }

  /** A signable document in key order throughout. */
  ghost predicate Canonical(j: Json)
    decreases j, 1
  {
    match j
    case Arr(items) => CanonicalItems(items)
    case Obj(fields) => Sorted(fields) && CanonicalFields(fields)
    case Other => false
    case _ => true
  }

  ghost predicate CanonicalItems(items: seq<Json>)
    decreases items, 0
  {
    items == [] || (Canonical(items[0]) && CanonicalItems(items[1..]))
  }

  ghost predicate CanonicalFields(fields: seq<Field>)
    decreases fields, 0
  {
    fields == [] || (Canonical(fields[0].value) && CanonicalFields(fields[1..]))
  }

  lemma {:induction false} InsertCanonical(f: Field, fields: seq<Field>)
    requires Canonical(f.value) && CanonicalFields(fields)
    ensures CanonicalFields(Insert(f, fields))
  {
    if fields != [] && Before(fields[0].key, f.key) {
      InsertCanonical(f, fields[1..]);
      assert Insert(f, fields)[1..] == Insert(f, fields[1..]);
    } else {
      assert ([f] + fields)[1..] == fields;
    }
  }

  /** Canonicalising puts every object in order. */
  lemma {:induction false} CanonCanonical(j: Json)
    requires Signable(j)
    ensures Canonical(Canon(j))
    decreases j, 1
  {
    match j
    case Arr(items) => CanonItemsCanonical(items);
    case Obj(fields) => CanonFieldsCanonical(fields);
    case _ =>
  }

  lemma {:induction false} CanonItemsCanonical(items: seq<Json>)
    requires SignableItems(items)
    ensures CanonicalItems(CanonItems(items))
    decreases items, 0
  {
    if items != [] {
      CanonCanonical(items[0]);
      CanonItemsCanonical(items[1..]);
      assert CanonItems(items)[1..] == CanonItems(items[1..]);
    }
  }

  lemma {:induction false} CanonFieldsCanonical(fields: seq<Field>)
    requires SignableFields(fields)
    ensures Sorted(CanonFields(fields)) && CanonicalFields(CanonFields(fields))
    ensures forall k :: HasKey(CanonFields(fields), k) <==> HasKey(fields, k)
    decreases fields, 0
  {
    if fields != [] {
      CanonCanonical(fields[0].value);
      CanonFieldsCanonical(fields[1..]);
      HasKeySplit(fields);
      var f := Field(fields[0].key, Canon(fields[0].value));
      InsertSorted(f, CanonFields(fields[1..]));
      InsertCanonical(f, CanonFields(fields[1..]));
    }
  }

  lemma {:induction false} MeaningKeys(fields: seq<Field>)
    ensures forall k :: k in MeaningMap(fields) <==> HasKey(fields, k)
  {
    hide Meaning;
    if fields != [] {
      MeaningKeys(fields[1..]);
      HasKeySplit(fields);
    }
  }

  lemma {:induction false} InsertMeaning(f: Field, fields: seq<Field>)
    requires !HasKey(fields, f.key)
    ensures MeaningMap(Insert(f, fields)) == MeaningMap(fields)[f.key := Meaning(f.value)]
  {
    hide Meaning; hide HasKey;
    if fields != [] && Before(fields[0].key, f.key) {
      HasKeySplit(fields);
      InsertMeaning(f, fields[1..]);
      var r := Insert(f, fields);
      assert r[1..] == Insert(f, fields[1..]) && r[0] == fields[0];
    } else {
      assert ([f] + fields)[1..] == fields;
    }
  }

  /** Canonicalising does not change what a document means. */
  lemma {:induction false} CanonMeaning(j: Json)
    requires Signable(j)
    ensures Meaning(Canon(j)) == Meaning(j)
    decreases j, 1
  {
    match j
    case Arr(items) => CanonItemsMeaning(items);
    case Obj(fields) => CanonFieldsMeaning(fields);
    case _ =>
  }

  lemma {:induction false} CanonItemsMeaning(items: seq<Json>)
    requires SignableItems(items)
    ensures Meanings(CanonItems(items)) == Meanings(items)
    decreases items, 0
  {
    if items != [] {
      CanonMeaning(items[0]);
      CanonItemsMeaning(items[1..]);
      assert CanonItems(items)[1..] == CanonItems(items[1..]);
    }
  }

  lemma {:induction false} CanonFieldsMeaning(fields: seq<Field>)
    requires SignableFields(fields)
    ensures MeaningMap(CanonFields(fields)) == MeaningMap(fields)
    decreases fields, 0
  {
    if fields != [] {
      CanonMeaning(fields[0].value);
      CanonFieldsMeaning(fields[1..]);
      CanonFieldsCanonical(fields[1..]);
      InsertMeaning(Field(fields[0].key, Canon(fields[0].value)), CanonFields(fields[1..]));
    }
  }

  /** Two canonical documents that mean the same are the same. */
  lemma {:induction false} MeaningDetermines(a: Json, b: Json)
    requires Canonical(a) && Canonical(b) && Meaning(a) == Meaning(b)
    ensures a == b
    decreases a, 1
  {
    match a
    case Arr(items) => ItemsDetermined(items, b.items);
    case Obj(fields) => FieldsDetermined(fields, b.fields);
    case _ =>
  }

  lemma {:induction false} ItemsDetermined(a: seq<Json>, b: seq<Json>)
    requires CanonicalItems(a) && CanonicalItems(b) && Meanings(a) == Meanings(b)
    ensures a == b
    decreases a, 0
  {
    assert |a| == |Meanings(a)| == |Meanings(b)| == |b|;
    if a != [] {
      assert Meanings(a)[0] == Meaning(a[0]) && Meanings(b)[0] == Meaning(b[0]);
      assert Meanings(a)[1..] == Meanings(a[1..]) && Meanings(b)[1..] == Meanings(b[1..]);
      MeaningDetermines(a[0], b[0]);
      ItemsDetermined(a[1..], b[1..]);
      assert a == [a[0]] + a[1..] && b == [b[0]] + b[1..];
    }
  }

  /** The smallest key of a sorted object comes first. */
  lemma {:induction false} FirstKey(fields: seq<Field>, k: string)
    requires Sorted(fields) && HasKey(fields, k)
    ensures fields[0].key == k || Before(fields[0].key, k)
    ensures !HasKey(fields[1..], fields[0].key)
  {
    if HasKey(fields[1..], fields[0].key) {
      var i :| 0 <= i < |fields[1..]| && fields[1..][i].key == fields[0].key;
      assert Before(fields[0].key, fields[i + 1].key);
      BeforeIrreflexive(fields[0].key);
    }
  }

  lemma {:induction false} HeadAndTail(fields: seq<Field>)
    requires Sorted(fields) && fields != []
    ensures var k := fields[0].key;
            && k in MeaningMap(fields) && MeaningMap(fields)[k] == Meaning(fields[0].value)
            && MeaningMap(fields[1..]) == MeaningMap(fields) - {k}
  {
    hide Meaning;
    assert HasKey(fields, fields[0].key);
    FirstKey(fields, fields[0].key);
    MeaningKeys(fields[1..]);
  }

  lemma {:induction false} SameFirstKey(a: seq<Field>, b: seq<Field>)
    requires Sorted(a) && Sorted(b) && MeaningMap(a).Keys == MeaningMap(b).Keys && a != [] && b != []
    ensures a[0].key == b[0].key
  {
    hide MeaningMap;
    MeaningKeys(a);
    MeaningKeys(b);
    assert HasKey(a, a[0].key) && HasKey(b, b[0].key);
    FirstKey(a, b[0].key);
    FirstKey(b, a[0].key);
    if a[0].key != b[0].key {
      BeforeTransitive(a[0].key, b[0].key, a[0].key);
      BeforeIrreflexive(a[0].key);
    }
  }

  lemma {:induction false} FieldsDetermined(a: seq<Field>, b: seq<Field>)
    requires Sorted(a) && Sorted(b) && CanonicalFields(a) && CanonicalFields(b)
    requires MeaningMap(a) == MeaningMap(b)
    ensures a == b
    decreases a, 0
  {
    hide MeaningMap; hide Meaning; hide HasKey;
    if a == [] || b == [] {
      NoFields(a);
      NoFields(b);
    } else {
      SameFirstKey(a, b);
      HeadAndTail(a);
      HeadAndTail(b);
      MeaningDetermines(a[0].value, b[0].value);
      FieldsDetermined(a[1..], b[1..]);
      assert a == [a[0]] + a[1..] && b == [b[0]] + b[1..];
    }
  }

  lemma {:induction false} NoFields(fields: seq<Field>)
    ensures MeaningMap(fields) == map[] <==> fields == []
  {
    hide Meaning;
    if fields != [] {
      assert fields[0].key in MeaningMap(fields);
    }
  }

  // ----- Printing

  function Digit(d: nat): char
    requires d < 10
  {
    '0' + d as char
  }

  function Digits(n: nat): (s: string)
    ensures |s| >= 1 && forall i :: 0 <= i < |s| ==> '0' <= s[i] <= '9'
  {
    if n < 10 then [Digit(n)] else Digits(n / 10) + [Digit(n % 10)]
  }

  function Decimal(n: int): string {
    if n < 0 then "-" + Digits(-n) else Digits(n)
  }

  function HexDigit(d: nat): char
    requires d < 16
  {
    if d < 10 then '0' + d as char else 'a' + (d - 10) as char
  }

  /** String escapes with `ensure_ascii=False`. */
  function EscapeChar(c: char): (s: string)
    ensures |s| >= 1
  {
    if c == '\"' then "\\\""
    else if c == '\\' then "\\\\"
    else if c == '\n' then "\\n"
    else if c == '\r' then "\\r"
    else if c == '\t' then "\\t"
    else if c as int == 12 then "\\f"
    else if c as int == 8 then "\\b"
    else if c as int < 32 then "\\u00" + [HexDigit(c as int / 16), HexDigit(c as int % 16)]
    else [c]
  }

  function Escape(s: string): string {
    if s == "" then "" else EscapeChar(s[0]) + Escape(s[1..])
  }

  function Quote(s: string): string {
    "\"" + Escape(s) + "\""
  }

  function Emit(j: Json): string
    decreases j, 1
  {
    match j
    case Null => "null"
    case Bool(b) => if b then "true" else "false"
    case Int(n) => Decimal(n)
    case Str(s) => Quote(s)
    case Arr(items) => "[" + EmitItems(items) + "]"
    case Obj(fields) => "{" + EmitFields(fields) + "}"
    case Other => ""
  }

  function EmitItems(items: seq<Json>): string
    decreases items, 0
  {
    if items == [] then ""
    else if |items| == 1 then Emit(items[0])
    else Emit(items[0]) + "," + EmitItems(items[1..])
  }

  function EmitField(f: Field): string
    decreases f, 2
  {
    Quote(f.key) + ":" + Emit(f.value)
  }

  function EmitFields(fields: seq<Field>): string
    decreases fields, 0
  {
    if fields == [] then ""
    else if |fields| == 1 then EmitField(fields[0])
    else EmitField(fields[0]) + "," + EmitFields(fields[1..])
  }

  /** `json.dumps` with sorted keys and compact separators. */
  function Print(j: Json): string {
    Emit(Canon(j))
  }

  /** Which characters are escaped, and how long the escapes are. */
  lemma {:induction false} EscapeLengths(c: char)
    ensures var n := |EscapeChar(c)|;
            && (n == 1 <==> c as int >= 32 && c != '\"' && c != '\\')
            && (n == 2 <==> c == '\"' || c == '\\' || c as int == 8 || 9 <= c as int <= 10 || 12 <= c as int <= 13)
            && (n == 6 || n <= 2)
            && forall i :: 0 <= i < n && n == 6 ==> !('A' <= EscapeChar(c)[i] <= 'F')
  {
  }

  /** Keys are ordered as text: at the first difference by code point, and a prefix comes first. */
  lemma {:induction false} BeforeMeans(a: string, b: string)
    ensures Before(a, b) <==>
              exists i :: 0 <= i <= |a| && i <= |b| && a[..i] == b[..i]
                          && (if i < |a| then i < |b| && a[i] < b[i] else i < |b|)
  {
    forall i | 0 < i <= |a| && i <= |b| && a[..i] == b[..i] ensures a[0] == b[0] {
      assert a[..i][0] == a[0] && b[..i][0] == b[0];
    }
    if a != "" && b != "" && a[0] == b[0] {
      BeforeMeans(a[1..], b[1..]);
      if i :| 0 <= i <= |a[1..]| && i <= |b[1..]| && a[1..][..i] == b[1..][..i]
              && (if i < |a[1..]| then i < |b[1..]| && a[1..][i] < b[1..][i] else i < |b[1..]|) {
        assert a[..i + 1] == [a[0]] + a[1..][..i] && b[..i + 1] == [b[0]] + b[1..][..i];
        assert i + 1 <= |a|;
      }
      if i :| 0 <= i <= |a| && i <= |b| && a[..i] == b[..i]
              && (if i < |a| then i < |b| && a[i] < b[i] else i < |b|) {
        assert i > 0;
        assert a[1..][..i - 1] == a[..i][1..] && b[1..][..i - 1] == b[..i][1..];
      }
    } else if b != "" {
      assert a[..0] == b[..0];
    }
  }

  // ----- A reader of JSON text

  predicate IsDigit(c: char) {
    '0' <= c <= '9'
  }

  /** How many digits a text starts with. */
  function Span(s: string): (k: nat)
    ensures k <= |s| && (forall i :: 0 <= i < k ==> IsDigit(s[i])) && (k < |s| ==> !IsDigit(s[k]))
  {
    if s == "" || !IsDigit(s[0]) then 0 else 1 + Span(s[1..])
  }

  function DigitValue(c: char): nat
    requires IsDigit(c)
  {
    c as int - '0' as int
  }

  /** The number that digits denote. */
  function Numeral(s: string): nat
    requires forall i :: 0 <= i < |s| ==> IsDigit(s[i])
  {
    if s == "" then 0 else 10 * Numeral(s[..|s| - 1]) + DigitValue(s[|s| - 1])
  }

  function ReadNumber(s: string): Option<(int, string)> {
    var t := if s != "" && s[0] == '-' then s[1..] else s;
    var k := Span(t);
    if k == 0 then None
    else
      var n: int := Numeral(t[..k]);
      Some((if t == s then n else -n, t[k..]))
  }

  function HexValue(c: char): (r: Option<nat>)
    ensures r.Some? ==> r.value < 16
  {
    if '0' <= c <= '9' then Some(c as int - '0' as int)
    else if 'a' <= c <= 'f' then Some(c as int - 'a' as int + 10)
    else if 'A' <= c <= 'F' then Some(c as int - 'A' as int + 10)
    else None
  }

  /** The character of a four-digit escape. */
  function HexChar4(s: string): Option<char>
    requires |s| == 4
  {
    match (HexValue(s[0]), HexValue(s[1]), HexValue(s[2]), HexValue(s[3]))
    case (Some(a), Some(b), Some(c), Some(d)) =>
      var code := ((a * 16 + b) * 16 + c) * 16 + d;
      if 0xD800 <= code < 0xE000 then None else Some(code as char)
    case _ => None
  }

  /** The character of a two-character escape (section 7 of RFC 8259). */
  function ShortEscape(c: char): Option<char> {
    if c == '\"' || c == '\\' || c == '/' then Some(c)
    else if c == 'b' then Some(8 as char)
    else if c == 'f' then Some(12 as char)
    else if c == 'n' then Some('\n')
    else if c == 'r' then Some('\r')
    else if c == 't' then Some('\t')
    else None
  }

  function PutFirst(c: Option<char>, r: Option<(string, string)>): Option<(string, string)> {
    if c.None? || r.None? then None else Some(([c.value] + r.value.0, r.value.1))
  }

  /** The rest of a string behind its opening quote, and what follows its closing quote. */
  function ReadChars(s: string): (r: Option<(string, string)>)
    ensures r.Some? ==> |r.value.1| < |s|
    decreases |s|
  {
    if s == "" then None
    else if s[0] == '\"' then Some(("", s[1..]))
    else if s[0] == '\\' then
      if |s| < 2 then None
      else if s[1] != 'u' then PutFirst(ShortEscape(s[1]), ReadChars(s[2..]))
      else if |s| < 6 then None
      else PutFirst(HexChar4(s[2..6]), ReadChars(s[6..]))
    else if s[0] as int < 32 then None
    else PutFirst(Some(s[0]), ReadChars(s[1..]))
  }

  predicate StartsWith(s: string, word: string) {
    |word| <= |s| && s[..|word|] == word
  }

  /** A value at the start of a text, in compact form, and what follows it. */
  function ReadValue(s: string): (r: Option<(Value, string)>)
    ensures r.Some? ==> |r.value.1| < |s|
    decreases |s|, 0
  {
    if s == "" then None
    else if s[0] == '\"' then
      match ReadChars(s[1..])
      case None => None
      case Some((x, rest)) => Some((VStr(x), rest))
    else if s[0] == '[' then
      if StartsWith(s[1..], "]") then Some((VArr([]), s[2..]))
      else
        match ReadItems(s[1..])
        case None => None
        case Some((vs, rest)) => Some((VArr(vs), rest))
    else if s[0] == '{' then
      if StartsWith(s[1..], "}") then Some((VObj(map[]), s[2..]))
      else
        match ReadFields(s[1..])
        case None => None
        case Some((m, rest)) => Some((VObj(m), rest))
    else if StartsWith(s, "null") then Some((VNull, s[4..]))
    else if StartsWith(s, "true") then Some((VBool(true), s[4..]))
    else if StartsWith(s, "false") then Some((VBool(false), s[5..]))
    else
      match ReadNumber(s)
      case None => None
      case Some((n, rest)) => Some((VInt(n), rest))
  }

  /** One or more values with commas between them, up to the closing bracket. */
  function ReadItems(s: string): (r: Option<(seq<Value>, string)>)
    ensures r.Some? ==> |r.value.1| < |s|
    decreases |s|, 1
  {
    match ReadValue(s)
    case None => None
    case Some((v, rest)) =>
      if StartsWith(rest, "]") then Some(([v], rest[1..]))
      else if StartsWith(rest, ",") then
        match ReadItems(rest[1..])
        case None => None
        case Some((vs, end)) => Some(([v] + vs, end))
      else None
  }

  /** One or more fields with commas between them, up to the closing bracket. */
  function ReadFields(s: string): (r: Option<(map<string, Value>, string)>)
    ensures r.Some? ==> |r.value.1| < |s|
    decreases |s|, 1
  {
    if !StartsWith(s, "\"") then None
    else
      match ReadChars(s[1..])
      case None => None
      case Some((k, colon)) =>
        if !StartsWith(colon, ":") then None
        else
          match ReadValue(colon[1..])
          case None => None
          case Some((v, rest)) =>
            if StartsWith(rest, "}") then Some((map[k := v], rest[1..]))
            else if StartsWith(rest, ",") then
              match ReadFields(rest[1..])
              case None => None
              case Some((m, end)) => Some((m[k := v], end))
            else None
  }

  // ----- Reading undoes printing

  lemma {:induction false} NumeralOfDigits(n: nat)
    ensures Numeral(Digits(n)) == n
    ensures |Digits(n)| > 1 ==> Digits(n)[0] != '0'
  {
    if n >= 10 {
      NumeralOfDigits(n / 10);
      assert Digits(n)[..|Digits(n)| - 1] == Digits(n / 10);
    } else {
      assert Digits(n)[..0] == "";
    }
  }

  lemma {:induction false} SpanOfDigits(d: string, r: string)
    requires (forall i :: 0 <= i < |d| ==> IsDigit(d[i])) && (r == "" || !IsDigit(r[0]))
    ensures Span(d + r) == |d|
  {
    if d == "" {
      assert d + r == r;
    } else {
      SpanOfDigits(d[1..], r);
      assert (d + r)[1..] == d[1..] + r;
    }
  }

  /** What may follow a value: nothing, a separator or a closing bracket. */
  predicate AfterValue(r: string) {
    r == "" || r[0] == ',' || r[0] == ']' || r[0] == '}'
  }

  lemma {:induction false} ReadDecimal(n: int, r: string)
    requires AfterValue(r)
    ensures ReadNumber(Decimal(n) + r) == Some((n, r))
    ensures Decimal(n) != "" && (Decimal(n)[0] == '-' || IsDigit(Decimal(n)[0]))
  {
    hide Digits; hide ReadNumber;
    if n < 0 {
      ReadMinus(-n, r);
    } else {
      ReadPlain(n, r);
    }
  }

  lemma {:induction false} ReadPlain(n: nat, r: string)
    requires AfterValue(r)
    ensures ReadNumber(Digits(n) + r) == Some((n, r))
  {
    hide Digits; hide Span; hide Numeral;
    ReadDigits(n, r);
    assert (Digits(n) + r)[0] == Digits(n)[0];
  }

  lemma {:induction false} ReadMinus(n: int, r: string)
    requires AfterValue(r) && n > 0
    ensures ReadNumber("-" + Digits(n) + r) == Some((-n, r))
  {
    hide Digits; hide Span; hide Numeral;
    var s, t := "-" + Digits(n) + r, Digits(n) + r;
    ReadDigits(n, r);
    assert s[0] == '-' && s[1..] == t && |t| < |s|;
  }

  lemma {:induction false} ReadDigits(n: nat, r: string)
    requires AfterValue(r)
    ensures var s, k := Digits(n) + r, |Digits(n)|;
            k > 0 && Span(s) == k && s[..k] == Digits(n) && s[k..] == r && Numeral(Digits(n)) == n
  {
    hide Digits; hide Span; hide Numeral;
    SpanOfDigits(Digits(n), r);
    NumeralOfDigits(n);
  }

  lemma {:induction false} ReadEscaped(c: char, t: string)
    ensures ReadChars(EscapeChar(c) + t) == PutFirst(Some(c), ReadChars(t))
  {
    var e := EscapeChar(c);
    var s := e + t;
    EscapeLengths(c);
    assert s[|e|..] == t;
    assert forall i :: 0 <= i < |e| ==> s[i] == e[i];
    if |e| == 6 {
      assert s[2..6] == e[2..6];
      ReadHex(c);
    }
  }

  lemma {:induction false} ReadHex(c: char)
    requires |EscapeChar(c)| == 6
    ensures EscapeChar(c)[0] == '\\' && EscapeChar(c)[1] == 'u' && HexChar4(EscapeChar(c)[2..6]) == Some(c)
  {
    var a, b := c as int / 16, c as int % 16;
    var h := EscapeChar(c)[2..6];
    assert h == ['0', '0', HexDigit(a), HexDigit(b)];
    assert HexValue('0') == Some(0) && HexValue(HexDigit(a)) == Some(a) && HexValue(HexDigit(b)) == Some(b);
  }

  lemma {:induction false} ReadQuoted(x: string, r: string)
    ensures ReadChars(Escape(x) + "\"" + r) == Some((x, r))
  {
    hide EscapeChar;
    if x == "" {
      assert ("\"" + r)[1..] == r;
      assert Escape(x) + "\"" + r == "\"" + r;
    } else {
      var t := Escape(x[1..]) + "\"" + r;
      ReadQuoted(x[1..], r);
      assert Escape(x) + "\"" + r == EscapeChar(x[0]) + t;
      ReadEscaped(x[0], t);
      assert [x[0]] + x[1..] == x;
    }
  }

  /** The first character of a printed value. */
  lemma {:induction false} EmitHead(j: Json)
    requires Canonical(j)
    ensures Emit(j) != "" && Emit(j)[0] != ']' && Emit(j)[0] != '}'
  {
    hide Digits; hide Escape; hide EmitItems; hide EmitFields; hide CanonicalItems; hide CanonicalFields; hide Sorted;
    if j.Int? {
      ReadDecimal(j.n, "");
    }
  }

  /** Reading a printed value gives what it means, and leaves what follows it. */
  lemma {:induction false} ReadEmit(j: Json, r: string)
    requires Canonical(j) && AfterValue(r)
    ensures ReadValue(Emit(j) + r) == Some((Meaning(j), r))
    decreases j, 1
  {
    hide ReadValue; hide ReadChars; hide Decimal; hide Quote; hide Sorted;
    match j
    case Null => ReadLiteral(j, r);
    case Bool(b) => ReadLiteral(j, r);
    case Int(n) => ReadInt(n, r);
    case Str(x) => ReadStr(x, r);
    case Arr(items) =>
      hide EmitItems;
      ReadArray(items, r);
      ReadBracket(EmitItems(items), r);
    case Obj(fields) =>
      hide EmitFields;
      ReadObject(fields, r);
      ReadBrace(EmitFields(fields), r);
  }

  lemma {:induction false} ReadLiteral(j: Json, r: string)
    requires j.Null? || j.Bool?
    ensures ReadValue(Emit(j) + r) == Some((Meaning(j), r))
  {
    hide ReadItems; hide ReadFields; hide ReadChars; hide ReadNumber; hide StartsWith;
    ReadWord(Emit(j), r);
  }

  lemma {:induction false} ReadInt(n: int, r: string)
    requires AfterValue(r)
    ensures ReadValue(Decimal(n) + r) == Some((VInt(n), r))
  {
    hide ReadItems; hide ReadFields; hide ReadChars; hide ReadNumber; hide StartsWith; hide Decimal;
    var s := Decimal(n) + r;
    ReadDecimal(n, r);
    assert s[0] == Decimal(n)[0];
    NotAWord(s);
  }

  lemma {:induction false} ReadStr(x: string, r: string)
    ensures ReadValue(Quote(x) + r) == Some((VStr(x), r))
  {
    hide ReadItems; hide ReadFields; hide ReadChars; hide ReadNumber; hide StartsWith; hide Escape;
    var s := Quote(x) + r;
    ReadQuoted(x, r);
    assert s[0] == '\"' && s[1..] == Escape(x) + "\"" + r;
  }

  lemma {:induction false} ReadBracket(body: string, r: string)
    ensures var t := body + "]" + r;
            ReadValue("[" + body + "]" + r) ==
              if StartsWith(t, "]") then Some((VArr([]), t[1..]))
              else if ReadItems(t).None? then None
              else Some((VArr(ReadItems(t).value.0), ReadItems(t).value.1))
  {
    hide ReadItems; hide ReadFields; hide ReadChars; hide ReadNumber; hide StartsWith;
    var s, t := "[" + body + "]" + r, body + "]" + r;
    assert s[1..] == t && s[2..] == t[1..];
  }

  lemma {:induction false} ReadBrace(body: string, r: string)
    ensures var t := body + "}" + r;
            ReadValue("{" + body + "}" + r) ==
              if StartsWith(t, "}") then Some((VObj(map[]), t[1..]))
              else if ReadFields(t).None? then None
              else Some((VObj(ReadFields(t).value.0), ReadFields(t).value.1))
  {
    hide ReadItems; hide ReadFields; hide ReadChars; hide ReadNumber; hide StartsWith;
    var s, t := "{" + body + "}" + r, body + "}" + r;
    assert s[1..] == t && s[2..] == t[1..];
  }

  lemma {:induction false} ReadWord(word: string, r: string)
    requires word == "null" || word == "true" || word == "false"
    ensures var s := word + r; StartsWith(s, word) && s[|word|..] == r && s[0] == word[0]
    ensures word == "true" ==> !StartsWith(word + r, "null")
    ensures word == "false" ==> !StartsWith(word + r, "null") && !StartsWith(word + r, "true")
  {
    var s := word + r;
    assert s[..|word|] == word;
    assert |s| >= 4 ==> s[..4][0] == s[0];
  }

  lemma {:induction false} NotAWord(s: string)
    requires s != "" && (s[0] == '-' || IsDigit(s[0]))
    ensures !StartsWith(s, "null") && !StartsWith(s, "true") && !StartsWith(s, "false")
  {
    assert |s| >= 4 ==> s[..4][0] == s[0];
    assert |s| >= 5 ==> s[..5][0] == s[0];
  }

  /** What follows the first item of a list, or the first field of an object. */
  predicate Follows(t: string, more: bool, next: string, close: string, r: string) {
    t == if more then "," + (next + close + r) else close + r
  }

  lemma {:induction false} FollowsParts(t: string, more: bool, next: string, close: string, r: string)
    requires Follows(t, more, next, close, r) && (close == "]" || close == "}")
    ensures AfterValue(t) && (StartsWith(t, close) <==> !more) && (StartsWith(t, ",") <==> more)
    ensures t != "" && t[1..] == if more then next + close + r else r
    ensures close == "]" || !StartsWith(t, "]")
  {
    assert t[..1] == [t[0]];
  }

  lemma {:induction false} ReadArray(items: seq<Json>, r: string)
    requires CanonicalItems(items)
    ensures var t := EmitItems(items) + "]" + r;
            if items == [] then StartsWith(t, "]") && t[1..] == r
            else !StartsWith(t, "]") && ReadItems(t) == Some((Meanings(items), r))
    decreases items, 0
  {
    hide Emit; hide Meaning; hide ReadValue;
    var t := EmitItems(items) + "]" + r;
    if items == [] {
      assert t == "]" + r;
      assert t[..1] == "]";
    } else {
      var e, more := Emit(items[0]), |items| > 1;
      var rest := if more then "," + (EmitItems(items[1..]) + "]" + r) else "]" + r;
      assert t == e + rest;
      FollowsParts(rest, more, EmitItems(items[1..]), "]", r);
      EmitHead(items[0]);
      assert t[0] == e[0] && t[..1] == [t[0]];
      ReadEmit(items[0], rest);
      ReadArray(items[1..], r);
      assert !more ==> Meanings(items[1..]) == [];
      assert [Meaning(items[0])] + [] == [Meaning(items[0])];
    }
  }

  lemma {:induction false} FieldText(f: Field, rest: string)
    ensures EmitField(f) + rest == "\"" + (Escape(f.key) + "\"" + (":" + (Emit(f.value) + rest)))
  {
    hide Emit; hide Escape;
  }

  lemma {:induction false} ReadObject(fields: seq<Field>, r: string)
    requires CanonicalFields(fields)
    ensures var t := EmitFields(fields) + "}" + r;
            if fields == [] then StartsWith(t, "}") && t[1..] == r
            else !StartsWith(t, "}") && ReadFields(t) == Some((MeaningMap(fields), r))
    decreases fields, 0
  {
    hide Emit; hide Meaning; hide ReadValue; hide ReadChars; hide Escape;
    var t := EmitFields(fields) + "}" + r;
    if fields == [] {
      assert t == "}" + r;
      assert t[..1] == "}";
    } else {
      var k, e, more := fields[0].key, Emit(fields[0].value), |fields| > 1;
      var rest := if more then "," + (EmitFields(fields[1..]) + "}" + r) else "}" + r;
      var colon := ":" + (e + rest);
      FieldText(fields[0], rest);
      assert t == EmitField(fields[0]) + rest;
      assert t[0] == '\"' && t[..1] == "\"" && t[1..] == Escape(k) + "\"" + colon;
      ReadQuoted(k, colon);
      assert colon[..1] == ":" && colon[1..] == e + rest;
      FollowsParts(rest, more, EmitFields(fields[1..]), "}", r);
      ReadEmit(fields[0].value, rest);
      ReadObject(fields[1..], r);
      assert !more ==> MeaningMap(fields[1..]) == map[];
    }
  }

  /** Reading the canonical text of a document gives what it means, with nothing left over. */
  lemma {:induction false} ReadPrint(j: Json)
    requires Signable(j)
    ensures ReadValue(Print(j)) == Some((Meaning(j), ""))
  {
    hide Emit; hide Canon; hide Meaning; hide Canonical; hide ReadValue;
    CanonCanonical(j);
    CanonMeaning(j);
    ReadEmit(Canon(j), "");
    assert Print(j) + "" == Print(j);
  }

  // ----- Printing is unambiguous

  /** Printed values, each with what follows it, can be told apart. */
  lemma {:induction false} EmitPrefix(a: Json, b: Json, r: string, s: string)
    requires Canonical(a) && Canonical(b) && AfterValue(r) && AfterValue(s)
    requires Emit(a) + r == Emit(b) + s
    ensures a == b && r == s
  {
    hide Emit; hide Meaning; hide Canonical; hide ReadValue;
    ReadEmit(a, r);
    ReadEmit(b, s);
    MeaningDetermines(a, b);
  }

  lemma {:induction false} DecimalInjective(m: int, n: int)
    requires Decimal(m) == Decimal(n)
    ensures m == n
  {
    hide Decimal; hide ReadNumber;
    ReadDecimal(m, "");
    ReadDecimal(n, "");
  }

  /** Two documents print alike exactly when they mean the same, whatever the order of their keys. */
  lemma {:induction false} PrintIffSameMeaning(a: Json, b: Json)
    requires Signable(a) && Signable(b)
    ensures Print(a) == Print(b) <==> Meaning(a) == Meaning(b)
  {
    hide Emit; hide Canon; hide Meaning; hide Canonical; hide ReadValue;
    ReadPrint(a);
    ReadPrint(b);
    if Meaning(a) == Meaning(b) {
      CanonCanonical(a);
      CanonCanonical(b);
      CanonMeaning(a);
      CanonMeaning(b);
      MeaningDetermines(Canon(a), Canon(b));
    }
  }

  // ----- Nothing printed contains a line break

  predicate OneLine(s: string) {
    '\n' !in s
  }

  lemma {:induction false} EscapeOneLine(s: string)
    ensures OneLine(Escape(s))
  {
    if s != "" {
      EscapeOneLine(s[1..]);
      assert OneLine(EscapeChar(s[0])) by { EscapeCharOneLine(s[0]); }
    }
  }

  lemma {:induction false} EscapeCharOneLine(c: char)
    ensures OneLine(EscapeChar(c))
  {
  }

  lemma {:induction false} EmitOneLine(j: Json)
    ensures OneLine(Emit(j))
    decreases j, 1
  {
    hide Digits; hide Escape;
    match j
    case Str(s) => EscapeOneLine(s);
    case Arr(items) => EmitItemsOneLine(items);
    case Obj(fields) => EmitFieldsOneLine(fields);
    case _ =>
  }

  lemma {:induction false} EmitItemsOneLine(items: seq<Json>)
    ensures OneLine(EmitItems(items))
    decreases items, 0
  {
    hide Emit;
    if items != [] {
      EmitOneLine(items[0]);
      EmitItemsOneLine(items[1..]);
    }
  }

  lemma {:induction false} EmitFieldsOneLine(fields: seq<Field>)
    ensures OneLine(EmitFields(fields))
    decreases fields, 0
  {
    hide Emit; hide Escape;
    if fields != [] {
      EscapeOneLine(fields[0].key);
      EmitOneLine(fields[0].value);
      EmitFieldsOneLine(fields[1..]);
    }
  }
}
