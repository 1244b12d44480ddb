/** Records, the layers of keys they build up, and the visible map that a stack of layers
    stands for. */
module Entries {
  import opened Bytes

  type Key = Bytes
  type Value = Bytes

  datatype Kind = Put | Tombstone

  /** The byte that a record type is stored as. */
  function KindCode(kind: Kind): byte
  {
    match kind
    case Put => 1
    case Tombstone => 2
  }

  datatype Entry = Entry(key: Key, value: Value, kind: Kind)

  datatype Cell = Cell(value: Value, kind: Kind)

  /** The answer to a point look-up: a value, an explicit deletion, or nothing known. */
  datatype Lookup = Found(value: Value) | Deleted | Absent

  type Layer = map<Key, Cell>

  // ---------- layers ----------

  function CellOf(e: Entry): Cell
  {
    Cell(e.value, e.kind)
  }

  /** What a run of records leaves behind: the last record of each key. */
  function LayerOf(es: seq<Entry>): Layer
  {
    if es == [] then map[] else
      var last := es[|es| - 1];
      LayerOf(es[..|es| - 1])[last.key := CellOf(last)]
  }

  function Answer(layer: Layer, key: Key): Lookup
  {
    if key !in layer then Absent
    else if layer[key].kind.Tombstone? then Deleted
    else Found(layer[key].value)
  }

  /** The map that a user sees through a layer. */
  function Visible(layer: Layer): map<Key, Value>
  {
    map k | k in layer && layer[k].kind.Put? :: layer[k].value
  }

  /** The stack of tables flattened, oldest first: a newer table overrides the older ones. */
  function Merge(tables: seq<seq<Entry>>): Layer
  {
    if tables == [] then map[] else
      Merge(tables[..|tables| - 1]) + LayerOf(tables[|tables| - 1])
  }

  function Purge(layer: Layer): Layer
  {
    map k | k in layer && layer[k].kind.Put? :: layer[k]
  }

  /** Every binding of small is a binding of big. */
  ghost predicate Submap(small: map<Key, Value>, big: map<Key, Value>)
  {
    forall k :: k in small ==> k in big && small[k] == big[k]
  }

  lemma {:induction false} LayerOfConcat(a: seq<Entry>, b: seq<Entry>)
    ensures LayerOf(a + b) == LayerOf(a) + LayerOf(b)
  {
    if b == [] {
      assert a + b == a;
    } else {
      var n := |b| - 1;
      assert (a + b)[..|a + b| - 1] == a + b[..n];
      LayerOfConcat(a, b[..n]);
    }
  }

  lemma LayerOfOne(e: Entry)
    ensures LayerOf([e]) == map[e.key := CellOf(e)]
  {
    assert [e][..0] == [];
  }

  lemma {:induction false} LayerOfKeys(es: seq<Entry>, key: Key)
    ensures key in LayerOf(es) <==> exists i :: 0 <= i < |es| && es[i].key == key
  {
    if es != [] {
      var n := |es| - 1;
      LayerOfKeys(es[..n], key);
      if key in LayerOf(es) && es[n].key != key {
        var i :| 0 <= i < n && es[..n][i].key == key;
        assert es[i].key == key;
      }
      if i :| 0 <= i < |es| && es[i].key == key {
        if i < n {
          assert es[..n][i].key == key;
        }
      }
    }
  }

  lemma OverlayAssociates(a: Layer, b: Layer, c: Layer)
    ensures (a + b) + c == a + (b + c)
  {
  }

  lemma {:induction false} MergeConcat(a: seq<seq<Entry>>, b: seq<seq<Entry>>)
    ensures Merge(a + b) == Merge(a) + Merge(b)
  {
    if b == [] {
      assert a + b == a;
    } else {
      var n := |b| - 1;
      assert (a + b)[..|a + b| - 1] == a + b[..n] && (a + b)[|a + b| - 1] == b[n];
      MergeConcat(a, b[..n]);
      OverlayAssociates(Merge(a), Merge(b[..n]), LayerOf(b[n]));
    }
  }

  lemma MergeOne(es: seq<Entry>)
    ensures Merge([es]) == LayerOf(es)
  {
    assert [es][..0] == [];
  }

  // ---------- newest first, stopping at a tombstone ----------

  /** The look-up order of the engine: the newest table that knows the key decides. */
  function SearchTables(tables: seq<seq<Entry>>, key: Key): Lookup
  {
    if tables == [] then Absent else
      var n := |tables| - 1;
      var here := Answer(LayerOf(tables[n]), key);
      if here.Absent? then SearchTables(tables[..n], key) else here
  }

  /** Newest-first search agrees with the oldest-first overlay. */
  lemma {:induction false} SearchIsMerge(tables: seq<seq<Entry>>, key: Key)
    ensures SearchTables(tables, key) == Answer(Merge(tables), key)
  {
    if tables != [] {
      SearchIsMerge(tables[..|tables| - 1], key);
    }
  }

  lemma AnswerVisible(layer: Layer, key: Key)
    ensures Answer(layer, key).Found? <==> key in Visible(layer)
    ensures key in Visible(layer) ==> Answer(layer, key) == Found(Visible(layer)[key])
  {
  }

  // ---------- sorted runs ----------

  predicate Sorted(es: seq<Entry>)
  {
    forall i, j :: 0 <= i < j < |es| ==> Less(es[i].key, es[j].key)
  }

  lemma SortedPrefix(es: seq<Entry>, n: nat)
    requires Sorted(es) && n <= |es|
    ensures Sorted(es[..n]) && Sorted(es[n..])
  {
  }

  /** The table scan: records in order, giving up once the keys have passed the target. */
  function Scan(es: seq<Entry>, key: Key): Lookup
  {
    if es == [] then Absent
    else if es[0].key == key then
      if es[0].kind.Tombstone? then Deleted else Found(es[0].value)
    else if Less(key, es[0].key) then Absent
    else Scan(es[1..], key)
  }

  lemma {:induction false} ScanFinds(es: seq<Entry>, key: Key)
    requires Sorted(es)
    ensures Scan(es, key) == Answer(LayerOf(es), key)
  {
    if es != [] {
      var rest := es[1..];
      assert Sorted(rest);
      ScanFinds(rest, key);
      assert es == [es[0]] + rest;
      LayerOfConcat([es[0]], rest);
      LayerOfOne(es[0]);
      LayerOfKeys(rest, key);
      if key in LayerOf(rest) {
        var i :| 0 <= i < |rest| && rest[i].key == key;
        assert Less(es[0].key, es[i + 1].key) && es[i + 1].key == key;
        LessAsymmetric(es[0].key, key);
      }
    }
  }

  // ---------- the sorted listing of a layer ----------

  predicate IsLeast(least: Key, keys: set<Key>)
  {
    least in keys && forall k :: k in keys ==> LessEq(least, k)
  }

  lemma {:induction false} LeastKeyExists(keys: set<Key>) returns (least: Key)
    requires keys != {}
    ensures IsLeast(least, keys)
  {
    var k :| k in keys;
    if keys == {k} {
      least := k;
    } else {
      var rest := keys - {k};
      least := LeastKeyExists(rest);
      LessTotal(k, least);
      if Less(k, least) {
        forall x | x in keys
          ensures LessEq(k, x)
        {
          if x != k && x != least {
            assert x in rest;
            LessTransitive(k, least, x);
          }
        }
        least := k;
      }
    }
  }

  lemma LeastKeyUnique(keys: set<Key>, a: Key, b: Key)
    requires IsLeast(a, keys) && IsLeast(b, keys)
    ensures a == b
  {
    if a != b {
      assert LessEq(b, a);
      LessAsymmetric(a, b);
    }
  }

  function LeastKey(keys: set<Key>): (least: Key)
    requires keys != {}
    ensures IsLeast(least, keys)
  {
    assert exists k :: IsLeast(k, keys) by {
      var least := LeastKeyExists(keys);
    }
    assert forall a, b | IsLeast(a, keys) && IsLeast(b, keys) :: a == b by {
      forall a, b | IsLeast(a, keys) && IsLeast(b, keys)
        ensures a == b
      {
        LeastKeyUnique(keys, a, b);
      }
    }
    var least :| least in keys && IsLeast(least, keys);
    least
  }

  /** The entries of a layer in key order, as an ordered map iterates over them. */
  function Listing(layer: Layer): seq<Entry>
    decreases |layer|
  {
    if layer == map[] then [] else
      var k := LeastKey(layer.Keys);
      [Entry(k, layer[k].value, layer[k].kind)] + Listing(layer - {k})
  }

  lemma {:induction false} ListingKeys(layer: Layer, i: nat)
    requires i < |Listing(layer)|
    ensures Listing(layer)[i].key in layer
    ensures CellOf(Listing(layer)[i]) == layer[Listing(layer)[i].key]
    decreases |layer|
  {
    var k := LeastKey(layer.Keys);
    if i > 0 {
      ListingKeys(layer - {k}, i - 1);
    }
  }

  lemma {:induction false} ListingSorted(layer: Layer)
    ensures Sorted(Listing(layer))
    decreases |layer|
  {
    if layer != map[] {
      var k := LeastKey(layer.Keys);
      var rest := Listing(layer - {k});
      ListingSorted(layer - {k});
      forall j | 0 <= j < |rest|
        ensures Less(k, rest[j].key)
      {
        ListingKeys(layer - {k}, j);
        assert rest[j].key in layer.Keys;
      }
    }
  }

  lemma {:induction false} ListingLayer(layer: Layer)
    ensures LayerOf(Listing(layer)) == layer && |Listing(layer)| == |layer|
    decreases |layer|
  {
    hide LayerOf, LeastKey;
    if layer == map[] {
      NoEntries();
    } else {
      var k := LeastKey(layer.Keys);
      var rest := layer - {k};
      ListingLayer(rest);
      var e := Entry(k, layer[k].value, layer[k].kind);
      LayerOfConcat([e], Listing(rest));
      LayerOfOne(e);
      PutBack(layer, k);
    }
  }

  lemma NoEntries()
    ensures LayerOf([]) == map[]
  {
  }

  lemma PutBack(layer: Layer, k: Key)
    requires k in layer
    ensures map[k := Cell(layer[k].value, layer[k].kind)] + (layer - {k}) == layer
    ensures |layer - {k}| == |layer| - 1
  {
    assert |layer| == |layer.Keys| && |layer - {k}| == |(layer - {k}).Keys|;
    assert (layer - {k}).Keys == layer.Keys - {k};
  }

  // ---------- compaction on layers ----------

  /** Dropping tombstones is invisible, and stays invisible under any newer layer, exactly
      because nothing older lies below the purged layer. */
  lemma PurgeInvisible(below: Layer, above: Layer)
    ensures Visible(Purge(below) + above) == Visible(below + above)
  {
  }

  /** Above older tables it would be visible, unless no dropped tombstone hides a live key. */
  lemma PurgeAboveIff(older: Layer, merged: Layer)
    ensures Visible(older + Purge(merged)) == Visible(older + merged)
        <==> forall k :: k in merged && merged[k].kind.Tombstone? ==> k !in Visible(older)
  {
    var kept, purged := Visible(older + merged), Visible(older + Purge(merged));
    if kept == purged {
      forall k | k in merged && merged[k].kind.Tombstone?
        ensures k !in Visible(older)
      {
        assert k !in kept;
        assert k in Visible(older) ==> k in purged;
      }
    }
    if forall k :: k in merged && merged[k].kind.Tombstone? ==> k !in Visible(older) {
      assert kept == purged;
    }
  }

  /** A stack of tables without its oldest part never shows a stale or deleted value. */
  lemma DropOldest(older: Layer, newer: Layer)
    ensures Submap(Visible(newer), Visible(older + newer))
  {
  }
}
