/** A stack of tables, oldest first, of which some are left out: because they could not be read,
    could not be opened again, or were deleted. What is still shown, and when it is the truth. */
module Stacks {
  import opened Entries

  /** The elements that are kept, in order. */
  function Kept<T>(xs: seq<T>, kept: seq<bool>): seq<T>
    requires |kept| == |xs|
  {
    if xs == [] then [] else
      var n := |xs| - 1;
      Kept(xs[..n], kept[..n]) + (if kept[n] then [xs[n]] else [])
  }

  /** How many are left out. */
  function LeftOut(kept: seq<bool>): nat
  {
    if kept == [] then 0 else
      LeftOut(kept[..|kept| - 1]) + (if kept[|kept| - 1] then 0 else 1)
  }

  function Everything(n: nat): (kept: seq<bool>)
    ensures |kept| == n
  {
    seq(n, _ => true)
  }

  lemma {:induction false} LeftOutConcat(a: seq<bool>, b: seq<bool>)
    ensures LeftOut(a + b) == LeftOut(a) + LeftOut(b)
  {
    if b == [] {
      assert a + b == a;
    } else {
      assert (a + b)[..|a + b| - 1] == a + b[..|b| - 1];
      LeftOutConcat(a, b[..|b| - 1]);
    }
  }

  lemma {:induction false} KeptAll<T>(xs: seq<T>, kept: seq<bool>)
    requires |kept| == |xs| && LeftOut(kept) == 0
    ensures Kept(xs, kept) == xs
  {
    if xs != [] {
      var n := |xs| - 1;
      KeptAll(xs[..n], kept[..n]);
      assert xs == xs[..n] + [xs[n]];
    }
  }

  lemma {:induction false} EverythingKept(n: nat)
    ensures LeftOut(Everything(n)) == 0
  {
    if n > 0 {
      EverythingKept(n - 1);
      assert Everything(n)[..n - 1] == Everything(n - 1);
    }
  }

  lemma {:induction false} KeptNone<T>(xs: seq<T>, kept: seq<bool>)
    requires |kept| == |xs| && forall i :: 0 <= i < |kept| ==> !kept[i]
    ensures Kept(xs, kept) == []
  {
    if xs != [] {
      KeptNone(xs[..|xs| - 1], kept[..|xs| - 1]);
    }
  }

  lemma {:induction false} KeptConcat<T>(a: seq<T>, b: seq<T>, keptA: seq<bool>, keptB: seq<bool>)
    requires |keptA| == |a| && |keptB| == |b|
    ensures Kept(a + b, keptA + keptB) == Kept(a, keptA) + Kept(b, keptB)
  {
    if b == [] {
      assert a + b == a && keptA + keptB == keptA;
    } else {
      var n := |b| - 1;
      assert (a + b)[..|a + b| - 1] == a + b[..n] && (keptA + keptB)[..|a + b| - 1] == keptA + keptB[..n];
      KeptConcat(a, b[..n], keptA, keptB[..n]);
    }
  }

  lemma {:induction false} KeptAmong<T>(xs: seq<T>, kept: seq<bool>)
    requires |kept| == |xs|
    ensures forall x :: x in Kept(xs, kept) ==> x in xs
  {
    if xs != [] {
      KeptAmong(xs[..|xs| - 1], kept[..|xs| - 1]);
    }
  }

  lemma KeptOne<T>(x: T, kept: bool)
    ensures Kept([x], [kept]) == if kept then [x] else []
  {
    assert [x][..0] == [] && [kept][..0] == [];
  }

  lemma KeptTwo<T>(a: T, b: T, first: bool, second: bool)
    ensures Kept([a, b], [first, second]) == (if first then [a] else []) + (if second then [b] else [])
  {
    KeptOne(a, first);
    assert [a, b][..1] == [a] && [first, second][..1] == [first];
  }

  lemma KeptSnoc<T>(xs: seq<T>, x: T, kept: seq<bool>, last: bool)
    requires |kept| == |xs|
    ensures Kept(xs + [x], kept + [last]) == Kept(xs, kept) + (if last then [x] else [])
  {
    assert (xs + [x])[..|xs|] == xs && (kept + [last])[..|xs|] == kept;
  }

  lemma MergeSnoc(tables: seq<seq<Entry>>, top: seq<Entry>, kept: seq<bool>, last: bool)
    requires |kept| == |tables|
    ensures Merge(Kept(tables + [top], kept + [last])) == Merge(Kept(tables, kept)) + (if last then LayerOf(top) else map[])
  {
    hide Kept, LayerOf;
    KeptSnoc(tables, top, kept, last);
    MergeConcat(Kept(tables, kept), if last then [top] else []);
    MergeOne(top);
  }

  // ---------- the table that decides ----------

  /** The number of the newest table that knows the key, counted from one; zero if none does. */
  function Decider(tables: seq<seq<Entry>>, key: Key): (n: nat)
    ensures n <= |tables|
  {
    if tables == [] then 0
    else if key in LayerOf(tables[|tables| - 1]) then |tables|
    else Decider(tables[..|tables| - 1], key)
  }

  lemma {:induction false} DeciderDecides(tables: seq<seq<Entry>>, key: Key)
    ensures var n := Decider(tables, key);
            SearchTables(tables, key) == if n == 0 then Absent else Answer(LayerOf(tables[n - 1]), key)
    ensures Decider(tables, key) > 0 ==> !SearchTables(tables, key).Absent?
  {
    hide LayerOf;
    if tables != [] {
      var n := |tables| - 1;
      DeciderDecides(tables[..n], key);
    }
  }

  /** What the tables before the deciding one still say. */
  function Fallback(tables: seq<seq<Entry>>, kept: seq<bool>, key: Key): Lookup
    requires |kept| == |tables| && Decider(tables, key) > 0
  {
    var n := Decider(tables, key) - 1;
    SearchTables(Kept(tables[..n], kept[..n]), key)
  }

  /** The deciding table answers if it is kept, and otherwise the older ones do. */
  lemma {:induction false} KeptSearch(tables: seq<seq<Entry>>, kept: seq<bool>, key: Key)
    requires |kept| == |tables|
    ensures var n := Decider(tables, key);
            SearchTables(Kept(tables, kept), key)
            == if n == 0 then Absent
               else if kept[n - 1] then Answer(LayerOf(tables[n - 1]), key)
               else Fallback(tables, kept, key)
  {
    hide LayerOf;
    if tables != [] {
      var n := |tables| - 1;
      KeptSearch(tables[..n], kept[..n], key);
      var before := Kept(tables[..n], kept[..n]);
      if kept[n] {
        assert (before + [tables[n]])[..|before|] == before;
      } else {
        assert before + [] == before;
      }
      var m := Decider(tables, key);
      if 0 < m <= n {
        assert tables[..n][..m - 1] == tables[..m - 1] && kept[..n][..m - 1] == kept[..m - 1];
      }
    }
  }

  // ---------- when the answer is still the true one ----------

  /** A user cannot tell a deleted key from one that never was. */
  predicate SameShown(a: Lookup, b: Lookup)
  {
    a.Found? || b.Found? ==> a == b
  }

  /** The deciding table was kept, or the older ones show the same. */
  predicate Unharmed(tables: seq<seq<Entry>>, kept: seq<bool>, key: Key)
    requires |kept| == |tables|
  {
    var n := Decider(tables, key);
    n == 0 || kept[n - 1] || SameShown(Fallback(tables, kept, key), Answer(LayerOf(tables[n - 1]), key))
  }

  /** The deciding table was kept, or the older ones show the same or nothing. */
  predicate NothingStale(tables: seq<seq<Entry>>, kept: seq<bool>, key: Key)
    requires |kept| == |tables|
  {
    var n := Decider(tables, key);
    n == 0 || kept[n - 1] ||
      (Fallback(tables, kept, key).Found? ==> Fallback(tables, kept, key) == Answer(LayerOf(tables[n - 1]), key))
  }

  /** With tables left out, a look-up shows the truth exactly when the table that decides was
      kept or the older ones show the same. */
  lemma SearchPastIff(tables: seq<seq<Entry>>, kept: seq<bool>, key: Key)
    requires |kept| == |tables|
    ensures SameShown(SearchTables(Kept(tables, kept), key), SearchTables(tables, key)) <==> Unharmed(tables, kept, key)
    ensures (SearchTables(Kept(tables, kept), key).Found? ==> SearchTables(Kept(tables, kept), key) == SearchTables(tables, key))
        <==> NothingStale(tables, kept, key)
  {
    hide LayerOf, SearchTables, Kept, Decider, Fallback;
    KeptSearch(tables, kept, key);
    DeciderDecides(tables, key);
  }

  lemma ShownByView(tables: seq<seq<Entry>>, key: Key)
    ensures key in Visible(Merge(tables)) <==> SearchTables(tables, key).Found?
    ensures key in Visible(Merge(tables)) ==> SearchTables(tables, key) == Found(Visible(Merge(tables))[key])
  {
    hide Merge, SearchTables, Visible;
    SearchIsMerge(tables, key);
    AnswerVisible(Merge(tables), key);
  }

  /** The whole map is the true one exactly when every key is unharmed, and a part of it exactly
      when nothing is stale. */
  lemma ViewPastIff(tables: seq<seq<Entry>>, kept: seq<bool>)
    requires |kept| == |tables|
    ensures Visible(Merge(Kept(tables, kept))) == Visible(Merge(tables)) <==> forall key :: Unharmed(tables, kept, key)
    ensures Submap(Visible(Merge(Kept(tables, kept))), Visible(Merge(tables))) <==> forall key :: NothingStale(tables, kept, key)
  {
    hide Merge, SearchTables, Visible, Unharmed, NothingStale, Kept;
    var part, whole := Visible(Merge(Kept(tables, kept))), Visible(Merge(tables));
    forall key
      ensures Unharmed(tables, kept, key) <==> ((key in part <==> key in whole) && (key in part ==> part[key] == whole[key]))
      ensures NothingStale(tables, kept, key) <==> (key in part ==> key in whole && part[key] == whole[key])
    {
      SearchPastIff(tables, kept, key);
      ShownByView(Kept(tables, kept), key);
      ShownByView(tables, key);
    }
    if forall key :: Unharmed(tables, kept, key) {
      assert part == whole;
    }
  }

  /** Leaving out tables can bring a deleted key back: the table with the value is kept, the
      newer one with the deletion is not. */
  lemma DeletedKeyReturns(key: Key, value: Value)
    ensures exists tables, kept ::
      && |kept| == |tables| && LeftOut(kept) == 1
      && SearchTables(tables, key) == Deleted
      && SearchTables(Kept(tables, kept), key) == Found(value)
  {
    var older, newer := [Entry(key, value, Put)], [Entry(key, [], Tombstone)];
    var tables, kept := [older, newer], [true, false];
    LayerOfOne(older[0]);
    LayerOfOne(newer[0]);
    assert tables[..1] == [older] && kept[..1] == [true];
    assert [older][..0] == [] && [true][..0] == [];
    assert Kept([older], [true]) == [] + [older];
    assert Kept(tables, kept) == [older];
    assert LeftOut(kept) == LeftOut([true]) + 1;
  }

  // ---------- reading newest first, past what cannot be read ----------

  lemma SearchConcat(a: seq<seq<Entry>>, b: seq<seq<Entry>>, key: Key)
    ensures SearchTables(a + b, key) == if SearchTables(b, key).Absent? then SearchTables(a, key) else SearchTables(b, key)
  {
    hide Merge, SearchTables;
    SearchIsMerge(a + b, key);
    SearchIsMerge(a, key);
    SearchIsMerge(b, key);
    MergeConcat(a, b);
  }

  /** The answer is that of a newest-first search past so many unread tables. */
  ghost predicate AnswersPast(tables: seq<seq<Entry>>, key: Key, unread: int, answer: Lookup)
  {
    exists kept :: |kept| == |tables| && LeftOut(kept) == unread && SameShown(answer, SearchTables(Kept(tables, kept), key))
  }

  /** Of the newer tables, the unread ones left out, none knows the key. */
  ghost predicate NotYet(tables: seq<seq<Entry>>, key: Key, unread: int)
  {
    exists kept :: |kept| == |tables| && LeftOut(kept) == unread && SearchTables(Kept(tables, kept), key) == Absent
  }

  lemma NotYetStart(key: Key)
    ensures NotYet([], key, 0)
  {
    var none: seq<bool> := [];
    assert LeftOut(none) == 0 && Kept<seq<Entry>>([], none) == [];
  }

  lemma NotYetMore(tables: seq<seq<Entry>>, key: Key, unread: int, next: seq<Entry>, read: bool)
    requires NotYet(tables, key, unread) && (read ==> Answer(LayerOf(next), key).Absent?)
    ensures NotYet([next] + tables, key, if read then unread else unread + 1)
  {
    hide SearchTables, Kept, LayerOf;
    var kept :| |kept| == |tables| && LeftOut(kept) == unread && SearchTables(Kept(tables, kept), key) == Absent;
    KeptConcat([next], tables, [read], kept);
    KeptOne(next, read);
    LeftOutConcat([read], kept);
    assert LeftOut([read]) == if read then 0 else 1;
    SearchConcat(if read then [next] else [], Kept(tables, kept), key);
    SearchOne(next, key);
    assert |[read] + kept| == |[next] + tables|;
  }

  lemma SearchOne(table: seq<Entry>, key: Key)
    ensures SearchTables([table], key) == Answer(LayerOf(table), key)
    ensures SearchTables([], key) == Absent
  {
    assert [table][..0] == [];
  }

  /** The table answers; what is older need not be read. */
  lemma AnsweredAt(older: seq<seq<Entry>>, table: seq<Entry>, newer: seq<seq<Entry>>, key: Key, unread: int)
    requires NotYet(newer, key, unread) && !Answer(LayerOf(table), key).Absent?
    ensures AnswersPast(older + [table] + newer, key, unread, Answer(LayerOf(table), key))
  {
    hide SearchTables, Kept, LayerOf;
    var kept :| |kept| == |newer| && LeftOut(kept) == unread && SearchTables(Kept(newer, kept), key) == Absent;
    var before := Everything(|older| + 1);
    EverythingKept(|older| + 1);
    KeptAll(older + [table], before);
    KeptConcat(older + [table], newer, before, kept);
    LeftOutConcat(before, kept);
    SearchConcat(older + [table], Kept(newer, kept), key);
    SearchConcat(older, [table], key);
    SearchOne(table, key);
    assert |before + kept| == |older + [table] + newer|;
  }

  lemma NotAnswered(tables: seq<seq<Entry>>, key: Key, unread: int)
    requires NotYet(tables, key, unread)
    ensures AnswersPast(tables, key, unread, Absent)
  {
  }

  /** With everything read the answer is the true one. */
  lemma AnswersAll(tables: seq<seq<Entry>>, key: Key, answer: Lookup)
    requires AnswersPast(tables, key, 0, answer)
    ensures SameShown(answer, SearchTables(tables, key))
  {
    var kept :| |kept| == |tables| && LeftOut(kept) == 0 && SameShown(answer, SearchTables(Kept(tables, kept), key));
    KeptAll(tables, kept);
  }

  // ---------- keys ----------

  /** No key appears that the whole stack does not know. */
  lemma {:induction false} KeptKeys(tables: seq<seq<Entry>>, kept: seq<bool>)
    requires |kept| == |tables|
    ensures Merge(Kept(tables, kept)).Keys <= Merge(tables).Keys
  {
    hide LayerOf;
    if tables != [] {
      var n := |tables| - 1;
      KeptKeys(tables[..n], kept[..n]);
      var before := Kept(tables[..n], kept[..n]);
      if kept[n] {
        assert (before + [tables[n]])[..|before|] == before;
      } else {
        assert before + [] == before;
      }
    }
  }
}
