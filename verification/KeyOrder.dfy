/** The canonical form of a JSON value: key order, and why it makes the printed text canonical (src/stems/canonical-json.ts). */
module KeyOrder {
  import opened Common
  import opened CanonicalJson

  // ---------------------------------------------------------------- the order of keys

  /** Equal up to k, and there a ends or has the smaller code unit. */
  predicate DiffersAt(a: string, b: string, k: nat) {
    k <= |a| && k < |b| && a[..k] == b[..k] && (k == |a| || a[k] < b[k])
  }

  lemma {:induction false} SameHead(a: string, b: string, k: nat)
    requires DiffersAt(a, b, k)
    ensures k > 0 ==> a != [] && b != [] && a[0] == b[0]
  {
    if k > 0 {
      assert a[0] == a[..k][0] && b[0] == b[..k][0];
    }
  }

  /** The comparison by code unit is the order of the first difference. */
  lemma {:induction false} KeyLessMeans(a: string, b: string)
    ensures KeyLess(a, b) <==> exists k :: DiffersAt(a, b, k)
  {
    if a != [] && b != [] && a[0] == b[0] {
      KeyLessMeans(a[1..], b[1..]);
      if KeyLess(a, b) {
        var k: nat :| DiffersAt(a[1..], b[1..], k);
        assert a[..k + 1] == [a[0]] + a[1..][..k] && b[..k + 1] == [b[0]] + b[1..][..k];
        assert DiffersAt(a, b, k + 1);
      }
      if k: nat :| DiffersAt(a, b, k) {
        assert k > 0;
        assert a[1..][..k - 1] == a[..k][1..] && b[1..][..k - 1] == b[..k][1..];
        assert DiffersAt(a[1..], b[1..], k - 1);
      }
    } else {
      assert KeyLess(a, b) ==> DiffersAt(a, b, 0);
      forall k: nat | DiffersAt(a, b, k)
        ensures k == 0
      {
        SameHead(a, b, k);
      }
    }
  }

  lemma {:induction false} KeyLessTotal(a: string, b: string)
    ensures !(KeyLess(a, b) && KeyLess(b, a))
    ensures a != b ==> KeyLess(a, b) || KeyLess(b, a)
  {
    if a != [] && b != [] {
      KeyLessTotal(a[1..], b[1..]);
      assert a == [a[0]] + a[1..] && b == [b[0]] + b[1..];
    }
  }

  lemma {:induction false} NotBelowTransitive(a: string, b: string, c: string)
    requires !KeyLess(b, a) && !KeyLess(c, b)
    ensures !KeyLess(c, a)
  {
    if a != [] && b != [] && c != [] {
      if a[0] == b[0] == c[0] {
        NotBelowTransitive(a[1..], b[1..], c[1..]);
      }
    }
  }

  // ---------------------------------------------------------------- the canonical value

  function InsertField(f: Field, fs: seq<Field>): (r: seq<Field>)
    ensures |r| == |fs| + 1
  {
    if fs == [] || KeyLess(f.key, fs[0].key) then [f] + fs else [fs[0]] + InsertField(f, fs[1..])
  }

  function SortFields(fs: seq<Field>): (r: seq<Field>)
    ensures |r| == |fs|
  {
    if fs == [] then [] else InsertField(fs[|fs| - 1], SortFields(fs[..|fs| - 1]))
  }

  /** The same value with every object's members in key order. */
  function Canon(v: Json): Json {
    match v
    case Array(items) => Array(CanonItems(items))
    case Object(fields) => Object(SortFields(CanonFields(fields)))
    case _ => v
  }

  function CanonItems(items: seq<Json>): (r: seq<Json>)
    ensures |r| == |items|
    ensures forall i | 0 <= i < |items| :: r[i] == Canon(items[i])
  {
    if items == [] then [] else [Canon(items[0])] + CanonItems(items[1..])
  }

  function CanonField(f: Field): Field {
    Field(f.key, Canon(f.value))
  }

  function CanonFields(fields: seq<Field>): (r: seq<Field>)
    ensures |r| == |fields|
    ensures forall i | 0 <= i < |fields| :: r[i] == CanonField(fields[i])
  {
    if fields == [] then [] else [CanonField(fields[0])] + CanonFields(fields[1..])
  }

  /** The text of one member. */
  function FieldText(f: Field): string {
    Quote(f.key) + ":" + Print(f.value)
  }

  // ---------------------------------------------------------------- sorting

  /** Printing and sorting members commute. */
  lemma {:induction false} InsertPrinted(f: Field, fs: seq<Field>)
    ensures PrintFields(InsertField(f, fs)) == InsertMember(Member(f.key, FieldText(f)), PrintFields(fs))
  {
    if fs == [] || KeyLess(f.key, fs[0].key) {
      assert ([f] + fs)[1..] == fs;
    } else {
      InsertPrinted(f, fs[1..]);
      assert ([fs[0]] + InsertField(f, fs[1..]))[1..] == InsertField(f, fs[1..]);
    }
  }

  lemma {:induction false} PrintedLast(fs: seq<Field>)
    requires |fs| > 0
    ensures PrintFields(fs)[..|fs| - 1] == PrintFields(fs[..|fs| - 1])
    ensures PrintFields(fs)[|fs| - 1] == Member(fs[|fs| - 1].key, FieldText(fs[|fs| - 1]))
  {
    if |fs| > 1 {
      PrintedLast(fs[1..]);
      assert fs[..|fs| - 1][1..] == fs[1..][..|fs| - 2];
    }
  }

  lemma {:induction false} SortPrinted(fs: seq<Field>)
    ensures PrintFields(SortFields(fs)) == SortMembers(PrintFields(fs))
  {
    if |fs| > 0 {
      PrintedLast(fs);
      SortPrinted(fs[..|fs| - 1]);
      InsertPrinted(fs[|fs| - 1], SortFields(fs[..|fs| - 1]));
    }
  }

  lemma {:induction false} InsertCanon(f: Field, fs: seq<Field>)
    ensures CanonFields(InsertField(f, fs)) == InsertField(CanonField(f), CanonFields(fs))
  {
    if fs == [] || KeyLess(f.key, fs[0].key) {
      assert ([f] + fs)[1..] == fs;
    } else {
      InsertCanon(f, fs[1..]);
      assert ([fs[0]] + InsertField(f, fs[1..]))[1..] == InsertField(f, fs[1..]);
    }
  }

  lemma {:induction false} SortCanon(fs: seq<Field>)
    ensures CanonFields(SortFields(fs)) == SortFields(CanonFields(fs))
  {
    if |fs| > 0 {
      var n := |fs| - 1;
      SortCanon(fs[..n]);
      InsertCanon(fs[n], SortFields(fs[..n]));
      assert CanonFields(fs)[..n] == CanonFields(fs[..n]);
    }
  }

  lemma {:induction false} InsertKeeps(f: Field, fs: seq<Field>)
    ensures multiset(InsertField(f, fs)) == multiset(fs) + multiset{f}
  {
    if !(fs == [] || KeyLess(f.key, fs[0].key)) {
      InsertKeeps(f, fs[1..]);
      assert fs == [fs[0]] + fs[1..];
    }
  }

  lemma {:induction false} SortKeeps(fs: seq<Field>)
    ensures multiset(SortFields(fs)) == multiset(fs)
  {
    if |fs| > 0 {
      var n := |fs| - 1;
      SortKeeps(fs[..n]);
      InsertKeeps(fs[n], SortFields(fs[..n]));
      assert fs == fs[..n] + [fs[n]];
    }
  }

  // ---------------------------------------------------------------- sorted members

  predicate NotAbove(fs: seq<Field>, i: nat, j: nat)
    requires i < |fs| && j < |fs|
  {
    !KeyLess(fs[j].key, fs[i].key)
  }

  predicate InKeyOrder(fs: seq<Field>) {
    forall i, j | 0 <= i < j < |fs| :: NotAbove(fs, i, j)
  }

  lemma {:induction false} TailInOrder(fs: seq<Field>)
    requires InKeyOrder(fs) && fs != []
    ensures InKeyOrder(fs[1..])
  {
    forall i, j | 0 <= i < j < |fs| - 1
      ensures NotAbove(fs[1..], i, j)
    {
      assert NotAbove(fs, i + 1, j + 1);
    }
  }

  lemma {:induction false} ConsInOrder(f: Field, fs: seq<Field>)
    requires InKeyOrder(fs) && forall g | g in fs :: !KeyLess(g.key, f.key)
    ensures InKeyOrder([f] + fs)
  {
    forall i, j | 0 <= i < j < |fs| + 1
      ensures NotAbove([f] + fs, i, j)
    {
      assert ([f] + fs)[j] == fs[j - 1] && fs[j - 1] in fs;
      assert i > 0 ==> NotAbove(fs, i - 1, j - 1);
    }
  }

  lemma {:induction false} InsertInOrder(f: Field, fs: seq<Field>)
    requires InKeyOrder(fs)
    ensures InKeyOrder(InsertField(f, fs))
  {
    if fs == [] || KeyLess(f.key, fs[0].key) {
      forall g | g in fs
        ensures !KeyLess(g.key, f.key)
      {
        var j :| 0 <= j < |fs| && fs[j] == g;
        KeyLessTotal(f.key, fs[0].key);
        KeyLessTotal(fs[0].key, fs[0].key);
        assert j > 0 ==> NotAbove(fs, 0, j);
        NotBelowTransitive(f.key, fs[0].key, g.key);
      }
      ConsInOrder(f, fs);
    } else {
      TailInOrder(fs);
      InsertInOrder(f, fs[1..]);
      forall g | g in InsertField(f, fs[1..])
        ensures !KeyLess(g.key, fs[0].key)
      {
        InsertKeeps(f, fs[1..]);
        assert g in multiset(InsertField(f, fs[1..]));
        if g != f {
          var j :| 0 <= j < |fs| - 1 && fs[1..][j] == g;
          assert NotAbove(fs, 0, j + 1);
        }
      }
      ConsInOrder(fs[0], InsertField(f, fs[1..]));
    }
  }

  /** Sorting puts the members in key order. */
  lemma {:induction false} SortInOrder(fs: seq<Field>)
    ensures InKeyOrder(SortFields(fs))
  {
    if fs != [] {
      SortInOrder(fs[..|fs| - 1]);
      InsertInOrder(fs[|fs| - 1], SortFields(fs[..|fs| - 1]));
    }
  }

  predicate Distinct(fs: seq<Field>) {
    forall i, j | 0 <= i < j < |fs| :: fs[i].key != fs[j].key
  }

  lemma {:induction false} DistinctPermuted(fs: seq<Field>, gs: seq<Field>)
    requires Distinct(fs) && multiset(fs) == multiset(gs)
    ensures Distinct(gs)
  {
    forall i, j | 0 <= i < j < |gs|
      ensures gs[i].key != gs[j].key
    {
      if gs[i].key == gs[j].key {
        assert gs[i] in multiset(fs) && gs[j] in multiset(fs);
        var a :| 0 <= a < |fs| && fs[a] == gs[i];
        var b :| 0 <= b < |fs| && fs[b] == gs[j];
        assert a == b;
        Twice(gs, i, j);
        Once(fs, a);
      }
    }
  }

  lemma {:induction false} Twice(gs: seq<Field>, i: nat, j: nat)
    requires i < j < |gs| && gs[i] == gs[j]
    ensures multiset(gs)[gs[i]] >= 2
  {
    assert gs == gs[..j] + gs[j..];
    assert gs[..j][i] in multiset(gs[..j]);
    assert gs[j..][0] in multiset(gs[j..]);
  }

  lemma {:induction false} Once(fs: seq<Field>, a: nat)
    requires Distinct(fs) && a < |fs|
    ensures multiset(fs)[fs[a]] == 1
  {
    assert fs == fs[..a] + [fs[a]] + fs[a + 1..];
    assert fs[a] !in fs[..a] && fs[a] !in fs[a + 1..];
  }

  /** Members in key order with different keys are determined by what they are. */
  lemma {:induction false} OrderedUnique(fs: seq<Field>, gs: seq<Field>)
    requires InKeyOrder(fs) && InKeyOrder(gs) && Distinct(fs) && multiset(fs) == multiset(gs)
    ensures fs == gs
    decreases |fs|
  {
    if fs == [] {
      assert |gs| == |multiset(gs)| == |multiset(fs)|;
    } else {
      SmallestAgree(fs, gs);
      SameTail(fs, gs);
      TailInOrder(fs);
      TailInOrder(gs);
      OrderedUnique(fs[1..], gs[1..]);
      assert fs == [fs[0]] + fs[1..] && gs == [gs[0]] + gs[1..];
    }
  }

  lemma {:induction false} Smallest(fs: seq<Field>, f: Field)
    requires InKeyOrder(fs) && f in fs
    ensures !KeyLess(f.key, fs[0].key)
  {
    var k :| 0 <= k < |fs| && fs[k] == f;
    KeyLessTotal(f.key, f.key);
    assert k > 0 ==> NotAbove(fs, 0, k);
  }

  lemma {:induction false} SmallestAgree(fs: seq<Field>, gs: seq<Field>)
    requires InKeyOrder(fs) && InKeyOrder(gs) && Distinct(fs) && multiset(fs) == multiset(gs) && fs != []
    ensures gs != [] && fs[0] == gs[0]
  {
    assert fs[0] in multiset(gs);
    assert gs[0] in multiset(fs);
    Smallest(gs, fs[0]);
    Smallest(fs, gs[0]);
    KeyLessTotal(fs[0].key, gs[0].key);
    var k :| 0 <= k < |fs| && fs[k] == gs[0];
    assert fs[k].key == fs[0].key;
  }

  lemma {:induction false} SameTail(fs: seq<Field>, gs: seq<Field>)
    requires fs != [] && gs != [] && fs[0] == gs[0] && multiset(fs) == multiset(gs)
    ensures multiset(fs[1..]) == multiset(gs[1..])
  {
    assert fs == [fs[0]] + fs[1..] && gs == [gs[0]] + gs[1..];
    assert multiset(fs[1..]) == multiset(fs) - multiset{fs[0]};
  }

  /** So members given in another order sort to the same sequence. */
  lemma {:induction false} SortReordered(fs: seq<Field>, gs: seq<Field>)
    requires Distinct(fs) && multiset(fs) == multiset(gs)
    ensures SortFields(fs) == SortFields(gs)
  {
    SortKeeps(fs);
    SortKeeps(gs);
    SortInOrder(fs);
    SortInOrder(gs);
    DistinctPermuted(fs, SortFields(fs));
    OrderedUnique(SortFields(fs), SortFields(gs));
  }

  lemma {:induction false} InsertLast(f: Field, fs: seq<Field>)
    requires forall g | g in fs :: !KeyLess(f.key, g.key)
    ensures InsertField(f, fs) == fs + [f]
  {
    if fs != [] {
      InsertLast(f, fs[1..]);
    }
  }

  lemma {:induction false} SortOrdered(fs: seq<Field>)
    requires InKeyOrder(fs)
    ensures SortFields(fs) == fs
  {
    if fs != [] {
      var n := |fs| - 1;
      forall i, j | 0 <= i < j < n
        ensures NotAbove(fs[..n], i, j)
      {
        assert NotAbove(fs, i, j);
      }
      SortOrdered(fs[..n]);
      forall g | g in fs[..n]
        ensures !KeyLess(fs[n].key, g.key)
      {
        var i :| 0 <= i < n && fs[i] == g;
        assert NotAbove(fs, i, n);
      }
      InsertLast(fs[n], fs[..n]);
      assert fs == fs[..n] + [fs[n]];
    }
  }

  // ---------------------------------------------------------------- whole values

  /** Every object in the value has its members in key order. */
  predicate Ordered(v: Json) {
    match v
    case Array(items) => forall i | 0 <= i < |items| :: Ordered(items[i])
    case Object(fields) => InKeyOrder(fields) && forall i | 0 <= i < |fields| :: Ordered(fields[i].value)
    case _ => true
  }

  /** The canonical form is in key order throughout. */
  lemma {:induction false} CanonOrdered(v: Json)
    ensures Ordered(Canon(v))
    decreases v
  {
    match v
    case Array(items) =>
      forall i | 0 <= i < |items|
        ensures Ordered(Canon(items[i]))
      {
        CanonOrdered(items[i]);
      }
    case Object(fields) =>
      var cfs := CanonFields(fields);
      SortInOrder(cfs);
      SortKeeps(cfs);
      forall f | f in SortFields(cfs)
        ensures Ordered(f.value)
      {
        assert f in multiset(cfs);
        var i :| 0 <= i < |cfs| && cfs[i] == f;
        CanonOrdered(fields[i].value);
      }
    case _ =>
  }

  lemma {:induction false} SameItems(items: seq<Json>, others: seq<Json>)
    requires |items| == |others| && forall i | 0 <= i < |items| :: Print(items[i]) == Print(others[i])
    ensures PrintItems(items) == PrintItems(others)
  {
    if items != [] {
      SameItems(items[1..], others[1..]);
    }
  }

  lemma {:induction false} SameFields(fs: seq<Field>, gs: seq<Field>)
    requires |fs| == |gs| && forall i | 0 <= i < |fs| :: fs[i].key == gs[i].key && Print(fs[i].value) == Print(gs[i].value)
    ensures PrintFields(fs) == PrintFields(gs)
  {
    if fs != [] {
      SameFields(fs[1..], gs[1..]);
    }
  }

  /** A value prints as its canonical form does. */
  lemma {:induction false} PrintCanon(v: Json)
    ensures Print(Canon(v)) == Print(v)
    decreases v
  {
    match v
    case Array(items) =>
      forall i | 0 <= i < |items|
        ensures Print(Canon(items[i])) == Print(items[i])
      {
        PrintCanon(items[i]);
      }
      SameItems(CanonItems(items), items);
    case Object(fields) =>
      forall i | 0 <= i < |fields|
        ensures Print(Canon(fields[i].value)) == Print(fields[i].value)
      {
        PrintCanon(fields[i].value);
      }
      var cfs := CanonFields(fields);
      SameFields(cfs, fields);
      SortInOrder(cfs);
      SortOrdered(SortFields(cfs));
      SortPrinted(cfs);
      SortPrinted(SortFields(cfs));
    case _ =>
  }

  /** Objects with different keys and the same members, in any order at any depth, print the same text. */
  lemma {:induction false} PrintReordered(fs: seq<Field>, gs: seq<Field>)
    requires Distinct(fs) && multiset(CanonFields(fs)) == multiset(CanonFields(gs))
    ensures Print(Object(fs)) == Print(Object(gs))
  {
    SortReordered(CanonFields(fs), CanonFields(gs));
    PrintCanon(Object(fs));
    PrintCanon(Object(gs));
  }
}
