/** A reader of canonical JSON text, and the round trip through canonicalJson. */
module JsonReader {
  import opened Common
  import opened CanonicalJson
  import opened KeyOrder

  datatype Parsed<+T> = NoParse | Got(value: T, rest: string)

  // ---------------------------------------------------------------- reading

  function ReadDigits(s: string, acc: nat): (r: (nat, string))
    ensures |r.1| <= |s|
    decreases |s|
  {
    if |s| > 0 && IsDigit(s[0]) then ReadDigits(s[1..], 10 * acc + (s[0] as int - '0' as int)) else (acc, s)
  }

  /** No leading zero, and no negative zero. */
  function ReadNumber(s: string): (r: Parsed<int>)
    ensures r.Got? ==> |r.rest| < |s|
  {
    if |s| == 0 then NoParse
    else if s[0] == '-' then
      if |s| > 1 && IsDigit(s[1]) && s[1] != '0' then
        var (n, rest) := ReadDigits(s[2..], s[1] as int - '0' as int);
        Got(-(n as int), rest)
      else NoParse
    else if !IsDigit(s[0]) || (s[0] == '0' && |s| > 1 && IsDigit(s[1])) then NoParse
    else
      var (n, rest) := ReadDigits(s[1..], s[0] as int - '0' as int);
      Got(n, rest)
  }

  /** The characters up to the closing quotation mark. */
  function ReadChars(s: string): (r: Parsed<Plain>)
    ensures r.Got? ==> |r.rest| < |s|
    decreases |s|
  {
    if |s| == 0 then NoParse
    else if s[0] == '"' then Got([], s[1..])
    else if !PlainChar(s[0]) then NoParse
    else
      match ReadChars(s[1..])
      case NoParse => NoParse
      case Got(t, rest) => Got([s[0]] + t, rest)
  }

  function ReadValue(s: string): (r: Parsed<Json>)
    ensures r.Got? ==> |r.rest| < |s|
    decreases |s|, 0
  {
    if |s| == 0 then NoParse
    else if s[0] == 'n' then if |s| >= 4 && s[..4] == "null" then Got(Null, s[4..]) else NoParse
    else if s[0] == '"' then
      match ReadChars(s[1..])
      case NoParse => NoParse
      case Got(t, rest) => Got(Text(t), rest)
    else if s[0] == '[' then
      if |s| > 1 && s[1] == ']' then Got(Array([]), s[2..])
      else
        match ReadItems(s[1..])
        case NoParse => NoParse
        case Got(items, rest) => Got(Array(items), rest)
    else if s[0] == '{' then
      if |s| > 1 && s[1] == '}' then Got(Object([]), s[2..])
      else
        match ReadFields(s[1..])
        case NoParse => NoParse
        case Got(fields, rest) => Got(Object(fields), rest)
    else
      match ReadNumber(s)
      case NoParse => NoParse
      case Got(n, rest) => Got(Number(n), rest)
  }

  function ReadItems(s: string): (r: Parsed<seq<Json>>)
    ensures r.Got? ==> |r.rest| < |s|
    decreases |s|, 1
  {
    match ReadValue(s)
    case NoParse => NoParse
    case Got(v, rest) =>
      if |rest| > 0 && rest[0] == ']' then Got([v], rest[1..])
      else if |rest| > 0 && rest[0] == ',' then
        match ReadItems(rest[1..])
        case NoParse => NoParse
        case Got(vs, after) => Got([v] + vs, after)
      else NoParse
  }

  function ReadField(s: string): (r: Parsed<Field>)
    ensures r.Got? ==> |r.rest| < |s|
    decreases |s|, 1
  {
    if |s| == 0 || s[0] != '"' then NoParse
    else
      match ReadChars(s[1..])
      case NoParse => NoParse
      case Got(key, rest) =>
        if |rest| == 0 || rest[0] != ':' then NoParse
        else
          match ReadValue(rest[1..])
          case NoParse => NoParse
          case Got(v, after) => Got(Field(key, v), after)
  }

  function ReadFields(s: string): (r: Parsed<seq<Field>>)
    ensures r.Got? ==> |r.rest| < |s|
    decreases |s|, 2
  {
    match ReadField(s)
    case NoParse => NoParse
    case Got(f, rest) =>
      if |rest| > 0 && rest[0] == '}' then Got([f], rest[1..])
      else if |rest| > 0 && rest[0] == ',' then
        match ReadFields(rest[1..])
        case NoParse => NoParse
        case Got(fs, after) => Got([f] + fs, after)
      else NoParse
  }

  /** A whole text. */
  function Read(s: string): Option<Json> {
    match ReadValue(s)
    case Got(v, "") => Some(v)
    case _ => None
  }

  // ---------------------------------------------------------------- the round trip

  /** What may follow a value: not another digit. */
  predicate Ends(rest: string) {
    rest == [] || !IsDigit(rest[0])
  }

  lemma {:induction false} DigitsRead(n: nat, rest: string)
    ensures IsDigit(Digits(n)[0])
    ensures ReadDigits(Digits(n)[1..] + rest, Digits(n)[0] as int - '0' as int) == ReadDigits(rest, n)
  {
    if n < 10 {
      assert Digits(n)[1..] + rest == rest;
    } else {
      var d := Digit(n % 10);
      DigitsRead(n / 10, [d] + rest);
      assert Digits(n)[1..] + rest == Digits(n / 10)[1..] + ([d] + rest);
      assert ([d] + rest)[1..] == rest;
    }
  }

  lemma {:induction false} NaturalRead(m: nat, rest: string)
    requires Ends(rest)
    ensures ReadNumber(Digits(m) + rest) == Got(m, rest)
  {
    DigitsShape(m);
    DigitsRead(m, rest);
    var s := Digits(m) + rest;
    assert s[1..] == Digits(m)[1..] + rest;
    assert s[0] == '0' && |s| > 1 ==> s[1] == rest[0];
  }

  lemma {:induction false} NegativeRead(n: int, rest: string)
    requires n < 0 && Ends(rest)
    ensures ReadNumber("-" + Digits(-n) + rest) == Got(n, rest)
  {
    var m := -n;
    DigitsShape(m);
    DigitsRead(m, rest);
    var s := "-" + Digits(m) + rest;
    assert s[1] == Digits(m)[0] && s[2..] == Digits(m)[1..] + rest;
  }

  lemma {:induction false} DecimalRead(n: int, rest: string)
    requires Ends(rest)
    ensures ReadNumber(Decimal(n) + rest) == Got(n, rest)
  {
    if n < 0 {
      NegativeRead(n, rest);
    } else {
      NaturalRead(n, rest);
    }
  }

  lemma {:induction false} CharsRead(t: Plain, rest: string)
    ensures ReadChars(t + "\"" + rest) == Got(t, rest)
  {
    var s := t + "\"" + rest;
    if |t| == 0 {
      assert s == "\"" + rest && s[1..] == rest;
    } else {
      CharsRead(t[1..], rest);
      assert s[1..] == t[1..] + "\"" + rest;
      assert [t[0]] + t[1..] == t;
    }
  }

  ghost predicate Reads(v: Json) {
    forall rest | Ends(rest) :: ReadValue(Print(v) + rest) == Got(Canon(v), rest)
  }

  lemma {:induction false} DecimalReads(n: int)
    ensures Reads(Number(n))
  {
    forall rest | Ends(rest)
      ensures ReadValue(Print(Number(n)) + rest) == Got(Canon(Number(n)), rest)
    {
      DecimalRead(n, rest);
      DigitsShape(if n < 0 then -n else n);
      assert Decimal(n)[0] == '-' || IsDigit(Decimal(n)[0]);
    }
  }

  lemma {:induction false} TextReads(t: Plain)
    ensures Reads(Text(t))
  {
    forall rest | Ends(rest)
      ensures ReadValue(Print(Text(t)) + rest) == Got(Canon(Text(t)), rest)
    {
      CharsRead(t, rest);
      assert (Quote(t) + rest)[1..] == t + "\"" + rest;
    }
  }

  lemma {:induction false} ItemLast(v: Json, rest: string)
    requires Reads(v)
    ensures ReadItems(Print(v) + ("]" + rest)) == Got([Canon(v)], rest)
  {
    assert ("]" + rest)[1..] == rest;
  }

  lemma {:induction false} ItemMore(v: Json, tail: string, vs: seq<Json>, rest: string)
    requires Reads(v) && ReadItems(tail) == Got(vs, rest)
    ensures ReadItems(Print(v) + ("," + tail)) == Got([Canon(v)] + vs, rest)
  {
    assert ("," + tail)[1..] == tail;
  }

  lemma JoinTexts(texts: seq<string>, close: string)
    requires |texts| > 0
    ensures Join(texts) + close == texts[0] + (if |texts| == 1 then close else "," + (Join(texts[1..]) + close))
  {
  }

  lemma {:induction false} ItemsRead(items: seq<Json>, rest: string)
    requires |items| > 0 && forall i | 0 <= i < |items| :: Reads(items[i])
    ensures ReadItems(Join(PrintItems(items)) + ("]" + rest)) == Got(CanonItems(items), rest)
    decreases |items|
  {
    var more := items[1..];
    JoinTexts(PrintItems(items), "]" + rest);
    if |items| == 1 {
      ItemLast(items[0], rest);
      assert CanonItems(items) == [Canon(items[0])];
    } else {
      ItemsRead(more, rest);
      ItemMore(items[0], Join(PrintItems(more)) + ("]" + rest), CanonItems(more), rest);
    }
  }

  lemma {:induction false} KeyRead(key: Plain, after: string)
    ensures ReadChars((Quote(key) + after)[1..]) == Got(key, after)
    ensures (Quote(key) + after)[0] == '"'
  {
    CharsRead(key, after);
    assert (Quote(key) + after)[1..] == key + "\"" + after;
  }

  lemma {:induction false} FieldSplits(s: string, key: Plain, after: string, v: Json, rest: string)
    requires s != "" && s[0] == '"' && ReadChars(s[1..]) == Got(key, after)
    requires after != "" && after[0] == ':' && ReadValue(after[1..]) == Got(v, rest)
    ensures ReadField(s) == Got(Field(key, v), rest)
  {
  }

  lemma {:induction false} FieldRead(f: Field, rest: string)
    requires Reads(f.value) && Ends(rest)
    ensures ReadField(FieldText(f) + rest) == Got(CanonField(f), rest)
  {
    var tail := Print(f.value) + rest;
    var after := ":" + tail;
    assert FieldText(f) + rest == Quote(f.key) + after;
    KeyRead(f.key, after);
    assert after[1..] == tail;
    FieldSplits(FieldText(f) + rest, f.key, after, Canon(f.value), rest);
  }

  lemma {:induction false} FieldLast(f: Field, rest: string)
    requires Reads(f.value)
    ensures ReadFields(FieldText(f) + ("}" + rest)) == Got([CanonField(f)], rest)
  {
    FieldRead(f, "}" + rest);
    assert ("}" + rest)[1..] == rest;
  }

  lemma {:induction false} FieldMore(f: Field, tail: string, fs: seq<Field>, rest: string)
    requires Reads(f.value) && ReadFields(tail) == Got(fs, rest)
    ensures ReadFields(FieldText(f) + ("," + tail)) == Got([CanonField(f)] + fs, rest)
  {
    FieldRead(f, "," + tail);
    assert ("," + tail)[1..] == tail;
  }

  lemma {:induction false} FieldsRead(fields: seq<Field>, rest: string)
    requires |fields| > 0 && forall i | 0 <= i < |fields| :: Reads(fields[i].value)
    ensures ReadFields(Join(Texts(PrintFields(fields))) + ("}" + rest)) == Got(CanonFields(fields), rest)
    decreases |fields|
  {
    var texts, more := Texts(PrintFields(fields)), fields[1..];
    JoinTexts(texts, "}" + rest);
    assert texts[0] == FieldText(fields[0]);
    if |fields| == 1 {
      FieldLast(fields[0], rest);
      assert CanonFields(fields) == [CanonField(fields[0])];
    } else {
      FieldsRead(more, rest);
      assert texts[1..] == Texts(PrintFields(more));
      FieldMore(fields[0], Join(Texts(PrintFields(more))) + ("}" + rest), CanonFields(more), rest);
    }
  }

  // ---------------------------------------------------------------- values

  lemma {:induction false} ArrayRead(inner: string, items: seq<Json>, rest: string)
    requires inner != "" && inner[0] != ']' && ReadItems(inner) == Got(items, rest)
    ensures ReadValue("[" + inner) == Got(Array(items), rest)
  {
    assert ("[" + inner)[1..] == inner;
  }

  lemma {:induction false} EmptyArrayRead(rest: string)
    ensures ReadValue("[" + ("]" + rest)) == Got(Array([]), rest)
  {
    assert ("[" + ("]" + rest))[2..] == rest;
  }

  lemma {:induction false} ArrayText(items: seq<Json>, rest: string)
    ensures Print(Array(items)) + rest == "[" + (Join(PrintItems(items)) + ("]" + rest))
  {
  }

  lemma {:induction false} ArrayReads(items: seq<Json>)
    requires forall i | 0 <= i < |items| :: Reads(items[i])
    ensures Reads(Array(items))
  {
    forall rest | Ends(rest)
      ensures ReadValue(Print(Array(items)) + rest) == Got(Canon(Array(items)), rest)
    {
      ArrayText(items, rest);
      if |items| == 0 {
        EmptyArrayRead(rest);
        assert Join(PrintItems(items)) + ("]" + rest) == "]" + rest;
      } else {
        ItemsRead(items, rest);
        JoinTexts(PrintItems(items), "]" + rest);
        FirstNotClosing(items[0], Join(PrintItems(items)), "]" + rest);
        ArrayRead(Join(PrintItems(items)) + ("]" + rest), CanonItems(items), rest);
      }
    }
  }

  /** A list of values starts with its first value, never with a closing bracket. */
  lemma {:induction false} FirstNotClosing(v: Json, joined: string, close: string)
    requires |joined| > 0 && joined[0] == Print(v)[0]
    ensures joined[0] != ']' && (joined + close)[0] != ']'
  {
    match v
    case Number(n) => DigitsShape(if n < 0 then -n else n);
    case _ =>
  }

  lemma {:induction false} SortedReads(fields: seq<Field>)
    requires forall i | 0 <= i < |fields| :: Reads(fields[i].value)
    ensures forall i | 0 <= i < |SortFields(fields)| :: Reads(SortFields(fields)[i].value)
  {
    var sorted := SortFields(fields);
    SortKeeps(fields);
    forall i | 0 <= i < |sorted|
      ensures Reads(sorted[i].value)
    {
      assert sorted[i] in multiset(sorted);
      assert sorted[i] in fields;
    }
  }

  /** The braces around the members. */
  lemma {:induction false} BracesRead(sorted: seq<Field>, rest: string)
    requires |sorted| > 0 && forall i | 0 <= i < |sorted| :: Reads(sorted[i].value)
    ensures ReadValue("{" + (Join(Texts(PrintFields(sorted))) + ("}" + rest))) == Got(Object(CanonFields(sorted)), rest)
  {
    var inner := Join(Texts(PrintFields(sorted))) + ("}" + rest);
    FieldsRead(sorted, rest);
    JoinTexts(Texts(PrintFields(sorted)), "}" + rest);
    assert inner[0] == FieldText(sorted[0])[0] == '"';
    assert ("{" + inner)[1..] == inner;
  }

  lemma {:induction false} ObjectText(fields: seq<Field>, rest: string)
    ensures Print(Object(fields)) + rest == "{" + (Join(Texts(PrintFields(SortFields(fields)))) + ("}" + rest))
  {
    SortPrinted(fields);
  }

  lemma {:induction false} ObjectReads(fields: seq<Field>)
    requires forall i | 0 <= i < |fields| :: Reads(fields[i].value)
    ensures Reads(Object(fields))
  {
    SortedReads(fields);
    SortCanon(fields);
    forall rest | Ends(rest)
      ensures ReadValue(Print(Object(fields)) + rest) == Got(Canon(Object(fields)), rest)
    {
      ObjectText(fields, rest);
      if |fields| > 0 {
        BracesRead(SortFields(fields), rest);
      } else {
        EmptyRead(rest);
      }
    }
  }

  lemma {:induction false} EmptyRead(rest: string)
    ensures ReadValue("{" + ("}" + rest)) == Got(Object([]), rest)
  {
    assert ("{" + ("}" + rest))[2..] == rest;
  }

  lemma {:induction false} NullReads()
    ensures Reads(Null)
  {
    forall rest | Ends(rest)
      ensures ReadValue(Print(Null) + rest) == Got(Canon(Null), rest)
    {
      var s := "null" + rest;
      assert s[..4] == "null" && s[4..] == rest;
    }
  }

  lemma {:induction false} ValueReads(v: Json)
    ensures Reads(v)
    decreases v
  {
    match v
    case Null => NullReads();
    case Number(n) => DecimalReads(n);
    case Text(t) => TextReads(t);
    case Array(items) =>
      forall i | 0 <= i < |items|
        ensures Reads(items[i])
      {
        ValueReads(items[i]);
      }
      ArrayReads(items);
    case Object(fields) =>
      forall i | 0 <= i < |fields|
        ensures Reads(fields[i].value)
      {
        ValueReads(fields[i].value);
      }
      ObjectReads(fields);
  }

  /** Reading what canonicalJson prints gives the value back, every object with its members in key order. */
  lemma RoundTrip(v: Json)
    ensures Read(Print(v)) == Some(Canon(v)) && Ordered(Canon(v))
  {
    ValueReads(v);
    assert Print(v) + "" == Print(v);
    CanonOrdered(v);
  }

  /** The encoding is canonical: values print the same text exactly when they have the same canonical form. */
  lemma PrintInjective(v: Json, w: Json)
    ensures Print(v) == Print(w) <==> Canon(v) == Canon(w)
  {
    RoundTrip(v);
    RoundTrip(w);
    PrintCanon(v);
    PrintCanon(w);
  }
}
