/** The line remap rule applied to compiled classes after decompiling
    (LineMappingVisitor): a table built from the decompiler's flat
    `[orig0, tgt0, orig1, tgt1, ...]` array, and the rewrite of every entry of
    every method's LineNumberTable (section 4.7.12 of the Java Virtual Machine
    Specification) through it. */
module LineMapping {
  import opened Base

  /** The `TreeMap<Integer, Integer>`: (original line, target line) pairs
      kept in strictly ascending order of original line. */
  type Table = seq<(int, int)>

  ghost predicate Sorted(t: Table) {
    forall i, j :: 0 <= i < j < |t| ==> t[i].0 < t[j].0
  }

  /** The keys present in the table. */
  ghost function KeysOf(t: Table): set<int> {
    set i | 0 <= i < |t| :: t[i].0
  }

  /** The table viewed as a map from original line to target line. */
  ghost function AsMap(t: Table): map<int, int>
  {
    if t == [] then map[] else AsMap(t[1..])[t[0].0 := t[0].1]
  }

  lemma {:induction false} AsMapKeys(t: Table)
    ensures AsMap(t).Keys == KeysOf(t)
  {
    if t != [] {
      AsMapKeys(t[1..]);
      assert KeysOf(t) == KeysOf(t[1..]) + {t[0].0} by {
        forall k | k in KeysOf(t) ensures k in KeysOf(t[1..]) + {t[0].0} {
          var i :| 0 <= i < |t| && t[i].0 == k;
          if i > 0 { assert t[1..][i - 1].0 == k; }
        }
        forall k | k in KeysOf(t[1..]) ensures k in KeysOf(t) {
          var i :| 0 <= i < |t[1..]| && t[1..][i].0 == k;
          assert t[i + 1].0 == k;
        }
      }
    }
  }

  lemma {:induction false} AsMapAt(t: Table, i: int)
    requires Sorted(t) && 0 <= i < |t|
    ensures t[i].0 in AsMap(t) && AsMap(t)[t[i].0] == t[i].1
  {
    if i > 0 {
      AsMapAt(t[1..], i - 1);
    }
  }

  /** Every key of `t` is strictly greater than `x`. */
  ghost predicate AllAbove(t: Table, x: int) {
    forall i :: 0 <= i < |t| ==> x < t[i].0
  }

  /** `TreeMap.put(k, v)`: insert in key order, replacing an equal key. */
  function Put(t: Table, k: int, v: int): (r: Table)
  {
    if t == [] then [(k, v)]
    else if k < t[0].0 then [(k, v)] + t
    else if k == t[0].0 then [(k, v)] + t[1..]
    else [t[0]] + Put(t[1..], k, v)
  }

  /** A pair below every key of a sorted table can be put in front of it. */
  lemma ConsSorted(h: (int, int), rest: Table)
    requires Sorted(rest) && AllAbove(rest, h.0)
    ensures Sorted([h] + rest)
    ensures forall x :: x < h.0 ==> AllAbove([h] + rest, x)
  {
    var r := [h] + rest;
    assert forall j :: 1 <= j < |r| ==> r[j] == rest[j - 1];
  }

  /** Putting keeps the table sorted, and a lower bound below both the old
      keys and the new key stays a lower bound. */
  lemma {:induction false} PutSorted(t: Table, k: int, v: int)
    requires Sorted(t)
    ensures Sorted(Put(t, k, v))
    ensures forall x :: x < k && AllAbove(t, x) ==> AllAbove(Put(t, k, v), x)
  {
    if t == [] {
    } else if k < t[0].0 {
      assert AllAbove(t, k);
      ConsSorted((k, v), t);
    } else if k == t[0].0 {
      assert AllAbove(t[1..], k);
      ConsSorted((k, v), t[1..]);
    } else {
      var rest := Put(t[1..], k, v);
      PutSorted(t[1..], k, v);
      assert AllAbove(t[1..], t[0].0);
      assert AllAbove(rest, t[0].0);
      ConsSorted(t[0], rest);
      forall x | x < k && AllAbove(t, x) ensures AllAbove(Put(t, k, v), x) {
        assert x < t[0].0 && AllAbove(t[1..], x);
      }
    }
  }

  /** Putting updates the map view at `k` and nowhere else. */
  lemma {:induction false} PutAsMap(t: Table, k: int, v: int)
    ensures AsMap(Put(t, k, v)) == AsMap(t)[k := v]
  {
    if t == [] {
    } else if k < t[0].0 {
      assert ([(k, v)] + t)[1..] == t;
    } else if k == t[0].0 {
      assert ([(k, v)] + t[1..])[1..] == t[1..];
    } else {
      PutAsMap(t[1..], k, v);
      assert ([t[0]] + Put(t[1..], k, v))[1..] == Put(t[1..], k, v);
    }
  }

  /** The table the constructor builds from an even-length flat array:
      the pairs are put in array order, so a later pair for the same
      original line overwrites an earlier one. */
  function TableOf(mapping: seq<int>): (r: Table)
    requires |mapping| % 2 == 0
    ensures Sorted(r)
  {
    if mapping == [] then []
    else
      var prefix := TableOf(mapping[..|mapping| - 2]);
      PutSorted(prefix, mapping[|mapping| - 2], mapping[|mapping| - 1]);
      Put(prefix, mapping[|mapping| - 2], mapping[|mapping| - 1])
  }

  /** An original line `k` is paired in the flat array at even index `i`. */
  predicate PairedAt(mapping: seq<int>, k: int, i: int) {
    0 <= i < |mapping| - 1 && i % 2 == 0 && mapping[i] == k
  }

  /** The pairs of the array without its last pair are its other pairs. */
  lemma PairedInPrefix(mapping: seq<int>, k: int)
    requires |mapping| >= 2 && |mapping| % 2 == 0
    ensures forall i :: PairedAt(mapping[..|mapping| - 2], k, i) <==> PairedAt(mapping, k, i) && i < |mapping| - 2
  {
    assert forall i :: 0 <= i < |mapping| - 2 ==> mapping[..|mapping| - 2][i] == mapping[i];
  }

  /** The table holds one entry per distinct original line of the array, and
      that entry's target is the one of the LAST pair naming the line. */
  lemma {:induction false} LastPairWins(mapping: seq<int>, k: int)
    requires |mapping| % 2 == 0
    ensures k in AsMap(TableOf(mapping)) <==> exists i :: PairedAt(mapping, k, i)
    ensures k in AsMap(TableOf(mapping)) ==>
      exists i :: PairedAt(mapping, k, i) && AsMap(TableOf(mapping))[k] == mapping[i + 1]
        && forall j :: PairedAt(mapping, k, j) ==> j <= i
  {
    if mapping != [] {
      var n := |mapping|;
      var prefix := mapping[..n - 2];
      LastPairWins(prefix, k);
      PutAsMap(TableOf(prefix), mapping[n - 2], mapping[n - 1]);
      assert AsMap(TableOf(mapping)) == AsMap(TableOf(prefix))[mapping[n - 2] := mapping[n - 1]];
      PairedInPrefix(mapping, k);
      if mapping[n - 2] == k {
        assert PairedAt(mapping, k, n - 2);
      } else if k in AsMap(TableOf(prefix)) {
        var i :| PairedAt(prefix, k, i) && AsMap(TableOf(prefix))[k] == prefix[i + 1]
          && forall j :: PairedAt(prefix, k, j) ==> j <= i;
        assert PairedAt(mapping, k, i) && mapping[i + 1] == prefix[i + 1];
        forall j | PairedAt(mapping, k, j) ensures j <= i {
          assert j < n - 2;
          assert PairedAt(prefix, k, j);
        }
      }
    }
  }

  /** `lineMapping.get(line)`. */
  function Get(t: Table, line: int): (r: Option<int>)
    requires Sorted(t)
    ensures r.Some? <==> line in AsMap(t)
    ensures r.Some? ==> r.value == AsMap(t)[line]
  {
    AsMapKeys(t);
    if t == [] then None
    else if t[0].0 == line then Some(t[0].1)
    else
      AsMapKeys(t[1..]);
      Get(t[1..], line)
  }

  /** `k` is the smallest key of `m` strictly greater than `line`. */
  ghost predicate IsHigherKey(m: map<int, int>, line: int, k: int) {
    k in m && k > line && forall k' :: k' in m && k' > line ==> k <= k'
  }

  /** `lineMapping.higherEntry(line)`: the entry with the least key strictly
      greater than `line`, if there is one. */
  function HigherEntry(t: Table, line: int): (r: Option<(int, int)>)
    requires Sorted(t)
    ensures r.Some? ==> IsHigherKey(AsMap(t), line, r.value.0) && AsMap(t)[r.value.0] == r.value.1
    ensures r.None? ==> forall k :: k in AsMap(t) ==> k <= line
  {
    AsMapKeys(t);
    if t == [] then None
    else if t[0].0 > line then
      AsMapAt(t, 0);
      assert forall k :: k in AsMap(t) ==> t[0].0 <= k by {
        forall k | k in AsMap(t) ensures t[0].0 <= k {
          assert k in KeysOf(t);
        }
      }
      Some(t[0])
    else
      AsMapKeys(t[1..]);
      var r := HigherEntry(t[1..], line);
      r
  }

  /** The line `visitLineNumber` emits for `line`: the exact entry's target,
      else the target of the least greater key, else `line` itself. */
  function Resolve(t: Table, line: int): (r: int)
    requires Sorted(t)
    ensures line in AsMap(t) ==> r == AsMap(t)[line]
    ensures line !in AsMap(t) && (exists k :: k in AsMap(t) && k > line) ==>
      exists k :: IsHigherKey(AsMap(t), line, k) && r == AsMap(t)[k]
    ensures line !in AsMap(t) && (forall k :: k in AsMap(t) ==> k <= line) ==> r == line
  {
    match Get(t, line)
    case Some(v) => v
    case None =>
      match HigherEntry(t, line)
      case Some(e) => e.1
      case None => line
  }

  /** The ASM `Label` marking the first instruction of a line; only its
      identity matters here. */
  type Label = int

  /** One LineNumberTable entry: a source line and its start label. */
  datatype LineEntry = LineEntry(line: int, start: Label)

  datatype MethodInfo = MethodInfo(name: string, descriptor: string, lines: seq<LineEntry>)

  /** A compiled class as this rewrite sees it: its methods, in file order. */
  datatype ClassFile = ClassFile(name: string, methods: seq<MethodInfo>)

  /** `MethodLineFixer`: every `visitLineNumber` call of one method, in
      emission order, forwarded with the resolved line and the same label. */
  function FixLines(lines: seq<LineEntry>, t: Table): (r: seq<LineEntry>)
    requires Sorted(t)
    ensures |r| == |lines|
    ensures forall i :: 0 <= i < |lines| ==>
      r[i].start == lines[i].start && r[i].line == Resolve(t, lines[i].line)
  {
    if lines == [] then []
    else [LineEntry(Resolve(t, lines[0].line), lines[0].start)] + FixLines(lines[1..], t)
  }

  /** `visitMethod`: each method gets a fixer over the SAME shared table. */
  function FixMethods(methods: seq<MethodInfo>, t: Table): (r: seq<MethodInfo>)
    requires Sorted(t)
    ensures |r| == |methods|
    ensures forall i :: 0 <= i < |methods| ==>
      r[i].name == methods[i].name && r[i].descriptor == methods[i].descriptor
      && r[i].lines == FixLines(methods[i].lines, t)
  {
    if methods == [] then []
    else
      var m := methods[0];
      [MethodInfo(m.name, m.descriptor, FixLines(m.lines, t))] + FixMethods(methods[1..], t)
  }

  /** `reader.accept(new LineMappingVisitor(writer, mapping))`. */
  function RemapClass(c: ClassFile, t: Table): (r: ClassFile)
    requires Sorted(t)
    ensures r.name == c.name && |r.methods| == |c.methods|
    ensures forall i :: 0 <= i < |c.methods| ==>
      r.methods[i].name == c.methods[i].name && r.methods[i].descriptor == c.methods[i].descriptor
      && r.methods[i].lines == FixLines(c.methods[i].lines, t)
  {
    ClassFile(c.name, FixMethods(c.methods, t))
  }

  /** With an empty mapping array the rewrite changes nothing. */
  lemma {:induction false} EmptyMappingIsIdentity(c: ClassFile)
    ensures RemapClass(c, TableOf([])) == c
  {
    var r := RemapClass(c, TableOf([]));
    forall i | 0 <= i < |c.methods| ensures r.methods[i] == c.methods[i] {
      var lines := c.methods[i].lines;
      var fixed := FixLines(lines, []);
      forall j | 0 <= j < |lines| ensures fixed[j] == lines[j] {
        assert Resolve([], lines[j].line) == lines[j].line;
      }
      assert fixed == lines;
    }
    assert r.methods == c.methods;
  }

  /** Every emitted line is either the original line or a target that the
      table holds. */
  lemma EmittedLineIsOriginalOrTarget(t: Table, line: int)
    requires Sorted(t)
    ensures Resolve(t, line) == line || Resolve(t, line) in AsMap(t).Values
  {
    var r := Resolve(t, line);
    if line in AsMap(t) {
      assert r in AsMap(t).Values;
    } else if exists k :: k in AsMap(t) && k > line {
      var k :| IsHigherKey(AsMap(t), line, k) && r == AsMap(t)[k];
      assert r in AsMap(t).Values;
    }
  }

  /** The start labels of every method survive the rewrite in order, and the
      number of entries of every method is unchanged. */
  lemma LabelsPreserved(c: ClassFile, t: Table, i: int, j: int)
    requires Sorted(t) && 0 <= i < |c.methods| && 0 <= j < |c.methods[i].lines|
    ensures |RemapClass(c, t).methods[i].lines| == |c.methods[i].lines|
    ensures RemapClass(c, t).methods[i].lines[j].start == c.methods[i].lines[j].start
  {
  }

  /** A class with one method whose LineNumberTable is
      `[(10, offset0), (12, offset1)]`. */
  function FooClass(): ClassFile {
    ClassFile("com/example/Foo", [MethodInfo("run", "()V", [LineEntry(10, 0), LineEntry(12, 1)])])
  }

  /** Mapping `[10, 100, 20, 200]`: line 10 is exact, line 12 takes the
      target of 20, the least greater original line. */
  lemma ScenarioCeiling()
    ensures RemapClass(FooClass(), TableOf([10, 100, 20, 200])).methods
      == [MethodInfo("run", "()V", [LineEntry(100, 0), LineEntry(200, 1)])]
  {
    var t := TableOf([10, 100, 20, 200]);
    assert [10, 100, 20, 200][..2] == [10, 100];
    assert [10, 100][..0] == [];
    assert TableOf([10, 100]) == [(10, 100)];
    assert [(10, 100)][1..] == [];
    assert t == [(10, 100), (20, 200)];
    assert Resolve(t, 10) == 100;
    assert Resolve(t, 12) == 200;
    var fixed := FixLines(FooClass().methods[0].lines, t);
    assert fixed == [LineEntry(100, 0), LineEntry(200, 1)];
    assert RemapClass(FooClass(), t).methods[0] == MethodInfo("run", "()V", fixed);
  }

  /** Mapping `[5, 50]`: neither line has an exact or a greater key, so both
      stay unchanged. */
  lemma ScenarioNoGreaterKey()
    ensures RemapClass(FooClass(), TableOf([5, 50])) == FooClass()
  {
    var t := TableOf([5, 50]);
    assert [5, 50][..0] == [];
    assert t == [(5, 50)];
    assert Resolve(t, 10) == 10;
    assert Resolve(t, 12) == 12;
    var fixed := FixLines(FooClass().methods[0].lines, t);
    assert fixed == FooClass().methods[0].lines;
    assert RemapClass(FooClass(), t).methods[0] == FooClass().methods[0];
  }

  /** The constructor's loop `for (i = 0; i < mapping.length; i += 2)
      lineMapping.put(mapping[i], mapping[i + 1])`; an odd-length array makes
      `mapping[i + 1]` go out of bounds. */
  method BuildTable(mapping: seq<int>) returns (r: Result<Table>)
    ensures r.Err? <==> |mapping| % 2 == 1
    ensures r.Err? ==> r.error == IndexOutOfBounds(|mapping|)
    ensures r.Ok? ==> r.value == TableOf(mapping)
  {
    var table: Table := [];
    var i := 0;
    while i < |mapping|
      invariant 0 <= i <= |mapping| + 1 && i % 2 == 0
      invariant i <= |mapping| && table == TableOf(mapping[..i])
    {
      if i + 1 >= |mapping| {
        return Err(IndexOutOfBounds(i + 1));
      }
      assert mapping[..i + 2][..i] == mapping[..i];
      table := Put(table, mapping[i], mapping[i + 1]);
      i := i + 2;
    }
    assert mapping[..i] == mapping;
    return Ok(table);
  }
}
