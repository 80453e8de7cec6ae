/**
 The canonical JSON printer behind package manifests and commit markers
 (src/stems/canonical-json.ts).

 Strings are those JSON.stringify prints without an escape: printable ASCII other
 than the quotation mark and the backslash. Numbers are integers.
 */
module CanonicalJson {
  import opened Common

  predicate PlainChar(c: char) {
    ' ' <= c <= '~' && c != '"' && c != '\\'
  }

  type Plain = s: string | forall i :: 0 <= i < |s| ==> PlainChar(s[i])

  datatype Json =
    | Null
    | Number(n: int)
    | Text(s: Plain)
    | Array(items: seq<Json>)
    | Object(fields: seq<Field>)

  datatype Field = Field(key: Plain, value: Json)

  // ---------------------------------------------------------------- numbers

  function Digit(d: nat): (c: char)
    requires d < 10
    ensures '0' <= c <= '9' && c as int - '0' as int == d
  {
    ('0' as int + d) as char
  }

  function Digits(n: nat): (s: string)
    ensures |s| > 0
  {
    if n < 10 then [Digit(n)] else Digits(n / 10) + [Digit(n % 10)]
  }

  predicate IsDigit(c: char) {
    '0' <= c <= '9'
  }

  /** Decimal digits only, and no leading zero. */
  lemma {:induction false} DigitsShape(n: nat)
    ensures forall i :: 0 <= i < |Digits(n)| ==> IsDigit(Digits(n)[i])
    ensures Digits(n)[0] == '0' ==> n == 0 && |Digits(n)| == 1
  {
    if n >= 10 {
      DigitsShape(n / 10);
    }
  }

  function Decimal(n: int): (s: string)
    ensures |s| > 0
  {
    if n < 0 then "-" + Digits(-n) else Digits(n)
  }

  // ---------------------------------------------------------------- printing

  datatype Member = Member(key: Plain, text: string)

  function Quote(s: Plain): string {
    "\"" + s + "\""
  }

  function Join(texts: seq<string>): string {
    if texts == [] then ""
    else if |texts| == 1 then texts[0]
    else texts[0] + "," + Join(texts[1..])
  }

  /** Array.prototype.sort on strings: by code unit, shorter first on a tie. */
  predicate KeyLess(a: string, b: string) {
    if b == [] then false
    else if a == [] then true
    else a[0] < b[0] || (a[0] == b[0] && KeyLess(a[1..], b[1..]))
  }

  function InsertMember(m: Member, ms: seq<Member>): (r: seq<Member>)
    ensures |r| == |ms| + 1
  {
    if ms == [] || KeyLess(m.key, ms[0].key) then [m] + ms
    else [ms[0]] + InsertMember(m, ms[1..])
  }

  function SortMembers(ms: seq<Member>): (r: seq<Member>)
    ensures |r| == |ms|
  {
    if ms == [] then [] else InsertMember(ms[|ms| - 1], SortMembers(ms[..|ms| - 1]))
  }

  function Texts(ms: seq<Member>): (r: seq<string>)
    ensures |r| == |ms|
    ensures forall i :: 0 <= i < |r| ==> r[i] == ms[i].text
  {
    seq(|ms|, i requires 0 <= i < |ms| => ms[i].text)
  }

  /** canonicalJson: keys sorted, no white space. */
  function Print(v: Json): (s: string)
    ensures |s| > 0
  {
    match v
    case Null => "null"
    case Number(n) => Decimal(n)
    case Text(t) => Quote(t)
    case Array(items) => "[" + Join(PrintItems(items)) + "]"
    case Object(fields) => "{" + Join(Texts(SortMembers(PrintFields(fields)))) + "}"
  }

  function PrintItems(items: seq<Json>): (r: seq<string>)
    ensures |r| == |items|
  {
    if items == [] then [] else [Print(items[0])] + PrintItems(items[1..])
  }

  function PrintFields(fields: seq<Field>): (r: seq<Member>)
    ensures |r| == |fields|
    ensures forall i :: 0 <= i < |r| ==> r[i].key == fields[i].key
  {
    if fields == [] then []
    else [Member(fields[0].key, Quote(fields[0].key) + ":" + Print(fields[0].value))] + PrintFields(fields[1..])
  }

  // ---------------------------------------------------------------- lengths

  function SumLengths(texts: seq<string>): nat {
    if texts == [] then 0 else |texts[0]| + SumLengths(texts[1..])
  }

  lemma {:induction false} JoinLength(texts: seq<string>)
    ensures |Join(texts)| == SumLengths(texts) + Max(0, |texts| - 1)
  {
    if |texts| > 1 {
      JoinLength(texts[1..]);
    } else if |texts| == 1 {
      assert texts[1..] == [];
    }
  }

  lemma {:induction false} SumLengthsConcat(a: seq<string>, b: seq<string>)
    ensures SumLengths(a + b) == SumLengths(a) + SumLengths(b)
  {
    if a == [] {
      assert a + b == b;
    } else {
      SumLengthsConcat(a[1..], b);
      assert (a + b)[1..] == a[1..] + b;
    }
  }

  lemma {:induction false} InsertLength(m: Member, ms: seq<Member>)
    ensures SumLengths(Texts(InsertMember(m, ms))) == |m.text| + SumLengths(Texts(ms))
  {
    if ms == [] || KeyLess(m.key, ms[0].key) {
      assert Texts([m] + ms)[1..] == Texts(ms);
    } else {
      var rest := InsertMember(m, ms[1..]);
      InsertLength(m, ms[1..]);
      assert Texts([ms[0]] + rest)[1..] == Texts(rest);
      assert Texts(ms)[1..] == Texts(ms[1..]);
    }
  }

  lemma {:induction false} SortLength(ms: seq<Member>)
    ensures SumLengths(Texts(SortMembers(ms))) == SumLengths(Texts(ms))
  {
    if ms != [] {
      var init, last := ms[..|ms| - 1], ms[|ms| - 1];
      SortLength(init);
      InsertLength(last, SortMembers(init));
      assert Texts(ms) == Texts(init) + [last.text];
      SumLengthsConcat(Texts(init), [last.text]);
      assert [last.text][1..] == [];
    }
  }

  /** Sorting never changes a length: an object costs its members, its commas and two braces. */
  lemma ObjectLength(fields: seq<Field>)
    ensures |Print(Object(fields))| == SumLengths(Texts(PrintFields(fields))) + Max(0, |fields| - 1) + 2
  {
    var ms := PrintFields(fields);
    SortLength(ms);
    JoinLength(Texts(SortMembers(ms)));
  }

  /** What one member costs: the key, its quotation marks, the colon and the value. */
  function FieldChars(f: Field): nat {
    |f.key| + 3 + |Print(f.value)|
  }

  function FieldsChars(fields: seq<Field>): nat {
    if fields == [] then 0 else FieldChars(fields[0]) + FieldsChars(fields[1..])
  }

  lemma {:induction false} FieldsCharsSum(fields: seq<Field>)
    ensures FieldsChars(fields) == SumLengths(Texts(PrintFields(fields)))
  {
    if fields != [] {
      FieldsCharsSum(fields[1..]);
      assert Texts(PrintFields(fields))[1..] == Texts(PrintFields(fields[1..]));
    }
  }

  lemma {:induction false} FieldsCharsConcat(a: seq<Field>, b: seq<Field>)
    ensures FieldsChars(a + b) == FieldsChars(a) + FieldsChars(b)
  {
    if a == [] {
      assert a + b == b;
    } else {
      assert (a + b)[1..] == a[1..] + b;
      FieldsCharsConcat(a[1..], b);
    }
  }

  lemma FieldsChars3(f: seq<Field>)
    requires |f| == 3
    ensures FieldsChars(f) == FieldChars(f[0]) + FieldChars(f[1]) + FieldChars(f[2])
  {
    var g := f[1..];
    var h := g[1..];
    assert h[1..] == [];
    assert FieldsChars(h) == FieldChars(h[0]);
    assert FieldsChars(g) == FieldChars(g[0]) + FieldsChars(h);
  }

  lemma {:induction false} FieldsChars9(f: seq<Field>)
    requires |f| == 9
    ensures FieldsChars(f) == FieldChars(f[0]) + FieldChars(f[1]) + FieldChars(f[2]) + FieldChars(f[3])
      + FieldChars(f[4]) + FieldChars(f[5]) + FieldChars(f[6]) + FieldChars(f[7]) + FieldChars(f[8])
  {
    FieldsChars3(f[..3]);
    FieldsChars3(f[3..6]);
    FieldsChars3(f[6..]);
    FieldsCharsConcat(f[..3], f[3..6] + f[6..]);
    FieldsCharsConcat(f[3..6], f[6..]);
    assert f == f[..3] + (f[3..6] + f[6..]);
  }

  /** Replacing one member changes the length by what that member costs. */
  lemma FieldsCharsAround(front: seq<Field>, f: Field, back: seq<Field>)
    ensures FieldsChars(front + [f] + back) == FieldsChars(front) + FieldChars(f) + FieldsChars(back)
  {
    FieldsCharsConcat(front + [f], back);
    FieldsCharsConcat(front, [f]);
    assert [f][1..] == [];
  }

  lemma {:induction false} FieldsCharsBound(fields: seq<Field>, bound: nat)
    requires forall i :: 0 <= i < |fields| ==> FieldChars(fields[i]) <= bound
    ensures FieldsChars(fields) <= |fields| * bound
  {
    if fields != [] {
      FieldsCharsBound(fields[1..], bound);
      MulSum(|fields| - 1, 1, bound);
    }
  }

  /** The printed length of an object, whatever the order of its keys. */
  lemma ObjectChars(fields: seq<Field>)
    ensures |Print(Object(fields))| == FieldsChars(fields) + Max(0, |fields| - 1) + 2
  {
    ObjectLength(fields);
    FieldsCharsSum(fields);
  }

  lemma {:induction false} PrintItemsConcat(a: seq<Json>, b: seq<Json>)
    ensures PrintItems(a + b) == PrintItems(a) + PrintItems(b)
  {
    if a == [] {
      assert a + b == b;
    } else {
      assert (a + b)[1..] == a[1..] + b;
      PrintItemsConcat(a[1..], b);
    }
  }

  function Pow10(k: nat): nat {
    if k == 0 then 1 else 10 * Pow10(k - 1)
  }

  lemma {:induction false} DigitsAtMost(n: nat, k: nat)
    requires 0 < k && n < Pow10(k)
    ensures |Digits(n)| <= k
  {
    if k == 1 {
      assert Pow10(1) == 10 * Pow10(0);
    } else if n >= 10 {
      DigitsAtMost(n / 10, k - 1);
    }
  }

  /** A safe integer prints in at most sixteen digits. */
  lemma SafeDigits(n: int)
    requires SafeInt(n, 0)
    ensures 1 <= |Decimal(n)| <= 16
  {
    assert Pow10(4) == 10000;
    assert Pow10(8) == 100000000;
    assert Pow10(12) == 1000000000000;
    assert Pow10(16) == 10000000000000000;
    DigitsAtMost(n, 16);
  }
}
