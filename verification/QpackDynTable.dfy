/** The dynamic table's history (sections 3.2 and 3.2.2 of RFC 9204): which of the
    entries ever accepted are still held, told without a ring. */
module QpackHistory {
  import opened Arith

  const MAX_ENTRIES := 64
  const MAX_NAME := 256
  const MAX_VALUE := 1024

  datatype Entry = Entry(name: seq<byte>, value: seq<byte>)

  function EntrySize(e: Entry): (n: nat)
    ensures n >= 32
  {
    |e.name| + |e.value| + 32
  }

  function TotalSize(s: seq<Entry>): nat
  {
    if s == [] then 0 else EntrySize(s[0]) + TotalSize(s[1..])
  }

  /** All names, and all values, one after another. */
  function Names(s: seq<Entry>): seq<byte>
  {
    if s == [] then [] else s[0].name + Names(s[1..])
  }

  function Values(s: seq<Entry>): seq<byte>
  {
    if s == [] then [] else s[0].value + Values(s[1..])
  }

  /** The size of section 3.2.1 of RFC 9204: every octet of every name and value, and 32 more
      for each entry. */
  lemma {:induction false} SizeCountsOctets(s: seq<Entry>)
    ensures TotalSize(s) == |Names(s)| + |Values(s)| + 32 * |s|
  {
    if s != [] {
      SizeCountsOctets(s[1..]);
    }
  }

  /** How many of the oldest entries must go for the others to fit in capacity. */
  function Dropped(s: seq<Entry>, capacity: nat): (d: nat)
    ensures d <= |s|
  {
    if TotalSize(s) <= capacity then 0 else 1 + Dropped(s[1..], capacity)
  }

  function Live(s: seq<Entry>, capacity: nat): seq<Entry>
  {
    s[Dropped(s, capacity)..]
  }

  lemma {:induction false} TotalSizeAppend(s: seq<Entry>, e: Entry)
    ensures TotalSize(s + [e]) == TotalSize(s) + EntrySize(e)
  {
    if s == [] {
      assert s + [e] == [e];
    } else {
      assert (s + [e])[1..] == s[1..] + [e];
      TotalSizeAppend(s[1..], e);
    }
  }

  lemma {:induction false} TotalSizeTail(s: seq<Entry>, j: nat)
    requires j < |s|
    ensures TotalSize(s[j..]) == EntrySize(s[j]) + TotalSize(s[j + 1..])
  {
    assert s[j..][1..] == s[j + 1..];
  }

  /** The entries that stay fit; with any one more of the older ones they would not. */
  lemma {:induction false} DroppedLeast(s: seq<Entry>, capacity: nat)
    ensures TotalSize(Live(s, capacity)) <= capacity
    ensures forall j :: 0 <= j < Dropped(s, capacity) ==> TotalSize(s[j..]) > capacity
  {
    if TotalSize(s) <= capacity {
      assert s[0..] == s;
    } else {
      DroppedLeast(s[1..], capacity);
      var d := Dropped(s[1..], capacity);
      assert s[1..][d..] == s[d + 1..];
      forall j | 0 <= j < d + 1 ensures TotalSize(s[j..]) > capacity {
        if j == 0 {
          assert s[0..] == s;
        } else {
          assert s[1..][j - 1..] == s[j..];
        }
      }
    }
  }

  lemma {:induction false} DroppedUnique(s: seq<Entry>, capacity: nat, d: nat)
    requires d <= |s| && TotalSize(s[d..]) <= capacity
    requires forall j :: 0 <= j < d ==> TotalSize(s[j..]) > capacity
    ensures Dropped(s, capacity) == d
  {
    DroppedLeast(s, capacity);
  }

  lemma {:induction false} CountBound(s: seq<Entry>)
    ensures 32 * |s| <= TotalSize(s)
  {
    if s != [] {
      CountBound(s[1..]);
    }
  }

  // ---- which inserts are taken ----

  predicate FitsFields(e: Entry)
  {
    |e.name| <= MAX_NAME && |e.value| <= MAX_VALUE
  }

  predicate Accepts(history: seq<Entry>, capacity: nat, e: Entry)
  {
    FitsFields(e) && EntrySize(e) <= capacity && |Live(history, capacity)| < MAX_ENTRIES
  }

  function Inserted(history: seq<Entry>, capacity: nat, e: Entry): seq<Entry>
  {
    if Accepts(history, capacity, e) then history + [e] else history
  }

  /** The history after offering each of es in turn to a fresh table. */
  function Run(es: seq<Entry>, capacity: nat): seq<Entry>
  {
    if es == [] then [] else Inserted(Run(es[..|es| - 1], capacity), capacity, es[|es| - 1])
  }

  /** An accepted entry is live at once and displaces only a prefix of what was live. */
  lemma {:induction false} NewestSurvives(history: seq<Entry>, capacity: nat, e: Entry)
    requires EntrySize(e) <= capacity
    ensures Dropped(history, capacity) <= Dropped(history + [e], capacity) <= |history|
    ensures forall j :: 0 <= j < Dropped(history + [e], capacity) ==> TotalSize(history[j..]) + EntrySize(e) > capacity
    ensures TotalSize(history[Dropped(history + [e], capacity)..]) + EntrySize(e) <= capacity
  {
    var s := history + [e];
    var d := Dropped(s, capacity);
    DroppedLeast(s, capacity);
    DroppedLeast(history, capacity);
    forall j | 0 <= j <= |history| ensures TotalSize(s[j..]) == TotalSize(history[j..]) + EntrySize(e) {
      assert s[j..] == history[j..] + [e];
      TotalSizeAppend(history[j..], e);
    }
    assert history[|history|..] == [];
    assert TotalSize(s[|history|..]) <= capacity;
    assert d <= |history| && TotalSize(history[d..]) <= capacity;
  }

  /** The header promises that an insert is refused only for its own size; that holds
      over every run exactly when the capacity is under 64 entries of the least size. */
  ghost predicate RefusesOnlyMisfits(capacity: nat)
  {
    forall es: seq<Entry>, e: Entry :: Accepts(Run(es, capacity), capacity, e) <==>
      FitsFields(e) && EntrySize(e) <= capacity
  }

  const TINY := Entry([], [])

  lemma {:induction false} TinyTotal(n: nat)
    ensures TotalSize(Tinies(n)) == 32 * n
  {
    if n > 0 {
      assert Tinies(n)[1..] == Tinies(n - 1);
      TinyTotal(n - 1);
    }
  }

  lemma {:induction false} AllLive(s: seq<Entry>, capacity: nat)
    requires TotalSize(s) <= capacity
    ensures Live(s, capacity) == s
  {
    assert s[0..] == s;
  }

  function Tinies(n: nat): (s: seq<Entry>)
    ensures |s| == n
  {
    seq(n, i => TINY)
  }

  /** A table of 2048 bytes or more fills up with 64 least entries. */
  lemma {:induction false} FillsUp(n: nat, capacity: nat)
    requires capacity >= 2048 && n <= MAX_ENTRIES
    ensures Run(Tinies(n), capacity) == Tinies(n)
    ensures Live(Tinies(n), capacity) == Tinies(n)
  {
    hide TotalSize, Live;
    var s := Tinies(n);
    TinyTotal(n);
    AllLive(s, capacity);
    if n > 0 {
      var t := Tinies(n - 1);
      FillsUp(n - 1, capacity);
      assert s[..n - 1] == t && t + [TINY] == s && s[n - 1] == TINY;
      assert Accepts(t, capacity, TINY);
    }
  }

  lemma {:induction false} RoomWhenSmall(history: seq<Entry>, capacity: nat)
    requires capacity < 2048
    ensures |Live(history, capacity)| < MAX_ENTRIES
  {
    DroppedLeast(history, capacity);
    CountBound(Live(history, capacity));
  }

  lemma {:induction false} RefusalsAsPromisedIff(capacity: nat)
    ensures RefusesOnlyMisfits(capacity) <==> capacity < 2048
  {
    hide Live, Run;
    if capacity < 2048 {
      forall es: seq<Entry>, e: Entry
        ensures Accepts(Run(es, capacity), capacity, e) <==> FitsFields(e) && EntrySize(e) <= capacity
      {
        RoomWhenSmall(Run(es, capacity), capacity);
      }
    } else {
      var s := Tinies(MAX_ENTRIES);
      FillsUp(MAX_ENTRIES, capacity);
      assert !Accepts(Run(s, capacity), capacity, TINY) && FitsFields(TINY) && EntrySize(TINY) == 32;
    }
  }
}

/** The table itself: a ring of 64 slots (src/app/qpack/qpack/dyntable.c, dynget.c,
    dynfind.c), proved to hold exactly the live part of its history. */
module QpackDynTable {
  import opened Arith
  import opened Bits
  import opened Options
  import opened QpackHistory

  /** The physical slot of the k-th live entry. */
  function Slot(head: nat, k: nat): (r: nat)
    ensures r < MAX_ENTRIES
  {
    (head + k) % MAX_ENTRIES
  }

  lemma {:induction false} SlotNext(head: nat, k: nat)
    requires head < MAX_ENTRIES
    ensures Slot((head + 1) % MAX_ENTRIES, k) == Slot(head, k + 1)
    ensures Slot(head, 0) == head
  {
    if head + 1 == MAX_ENTRIES {
      ModShift(k, 1, MAX_ENTRIES);
    }
  }

  class DynTable {
    const ring: array<Entry>
    var head: nat
    var count: nat
    var dropped: nat
    var size: nat
    var capacity: nat
    /** Every entry ever accepted, oldest first; position is absolute index. */
    ghost var accepted: seq<Entry>

    /** The ring holds the entries from `dropped` on, in order, starting at head. */
    ghost predicate Holds()
      reads this, ring
    {
      ring.Length == MAX_ENTRIES && head < MAX_ENTRIES && count <= MAX_ENTRIES
      && dropped + count == |accepted|
      && (forall k :: 0 <= k < count ==> ring[Slot(head, k)] == accepted[dropped + k])
      && size == TotalSize(accepted[dropped..])
    }

    ghost predicate Valid()
      reads this, ring
    {
      Holds() && dropped == Dropped(accepted, capacity)
    }

    constructor (capacity': nat)
      ensures Valid() && accepted == [] && capacity == capacity' && fresh(ring)
    {
      ring := new Entry[MAX_ENTRIES](i => TINY);
      head, count, dropped, size := 0, 0, 0, 0;
      capacity := capacity';
      accepted := [];
    }

    method EvictOldest()
      requires Holds() && count > 0
      modifies this
      ensures Holds() && dropped == old(dropped) + 1 && accepted == old(accepted) && capacity == old(capacity)
    {
      hide TotalSize, Slot;
      SlotNext(head, 0);
      var e := ring[head];
      assert e == accepted[dropped] by { assert ring[Slot(head, 0)] == accepted[dropped + 0]; }
      TotalSizeTail(accepted, dropped);
      ghost var h := head;
      size := size - EntrySize(e);
      head := (head + 1) % MAX_ENTRIES;
      count := count - 1;
      dropped := dropped + 1;
      forall k | 0 <= k < count ensures ring[Slot(head, k)] == accepted[dropped + k] {
        SlotNext(h, k);
      }
    }

    method MakeRoom(need: nat)
      requires Valid() && need <= capacity
      modifies this
      ensures Holds() && accepted == old(accepted) && capacity == old(capacity)
      ensures dropped >= old(dropped) && size + need <= capacity
      ensures forall j :: 0 <= j < dropped ==> TotalSize(accepted[j..]) + need > capacity
    {
      hide Dropped, TotalSize;
      DroppedLeast(accepted, capacity);
      NothingLeft(accepted);
      while count > 0 && size + need > capacity
        invariant Holds() && accepted == old(accepted) && capacity == old(capacity)
        invariant dropped >= old(dropped)
        invariant forall j :: 0 <= j < dropped ==> TotalSize(accepted[j..]) + need > capacity
      {
        EvictOldest();
      }
    }

    method StoreEntry(e: Entry)
      requires Holds() && count < MAX_ENTRIES
      modifies this, ring
      ensures Holds() && accepted == old(accepted) + [e] && dropped == old(dropped) && capacity == old(capacity)
    {
      hide TotalSize, Slot;
      var slot := Slot(head, count);
      ring[slot] := e;
      size := size + EntrySize(e);
      assert (accepted + [e])[dropped..] == accepted[dropped..] + [e];
      TotalSizeAppend(accepted[dropped..], e);
      forall k | 0 <= k < count ensures Slot(head, k) != slot {
        SlotsApart(head, k, count);
      }
      count := count + 1;
      accepted := accepted + [e];
    }

    /** Takes the entry exactly when the specification does, and the table stays the
        longest run of newest accepted entries that fits its capacity. */
    method Insert(e: Entry) returns (ok: bool)
      requires Valid()
      modifies this, ring
      ensures Valid() && capacity == old(capacity)
      ensures ok == Accepts(old(accepted), capacity, e)
      ensures ok <==> |e.name| <= 256 && |e.value| <= 1024 && |e.name| + |e.value| + 32 <= capacity && old(count) < 64
      ensures accepted == Inserted(old(accepted), capacity, e)
    {
      var need := EntrySize(e);
      LiveCount();
      if !FitsFields(e) || need > capacity || count >= MAX_ENTRIES {
        return false;
      }
      MakeRoom(need);
      StoreEntry(e);
      FitsAgain(old(accepted), capacity, e, dropped);
      return true;
    }

    lemma LiveCount()
      requires Valid()
      ensures count == |Live(accepted, capacity)| && size == TotalSize(Live(accepted, capacity)) <= capacity
      ensures var live := Live(accepted, capacity); size == |Names(live)| + |Values(live)| + 32 * count
    {
      DroppedLeast(accepted, capacity);
      SizeCountsOctets(Live(accepted, capacity));
    }

    /** An absolute index finds its own entry for as long as that entry is live. */
    function Get(absIndex: nat): (r: Option<Entry>)
      requires Valid()
      reads this, ring
      ensures r == if Dropped(accepted, capacity) <= absIndex < |accepted| then Some(accepted[absIndex]) else None
    {
      if !(dropped <= absIndex < dropped + count) then None
      else
        var off := absIndex - dropped;
        assert ring[Slot(head, off)] == accepted[dropped + off];
        Some(ring[Slot(head, off)])
    }

    method Classify(off: nat, name: seq<byte>, value: seq<byte>) returns (m: nat)
      requires Holds() && off < count
      ensures var e := accepted[dropped + off];
              m == if e == Entry(name, value) then 2 else if e.name == name then 1 else 0
    {
      var e := ring[Slot(head, off)];
      var same := BytesEqual(e.name, name);
      if !same {
        return 0;
      }
      same := BytesEqual(e.value, value);
      return if same then 2 else 1;
    }

    /** The oldest live entry equal in name and value, else the oldest live one equal in
        name, else nothing. */
    method Find(name: seq<byte>, value: seq<byte>) returns (found: bool, absIndex: nat, valueMatched: bool)
      requires Valid()
      ensures found ==> dropped <= absIndex < |accepted| && accepted[absIndex].name == name
      ensures found && valueMatched ==> accepted[absIndex].value == value
      ensures found && valueMatched ==> forall j :: dropped <= j < absIndex ==> accepted[j] != Entry(name, value)
      ensures !(found && valueMatched) ==> forall j :: dropped <= j < |accepted| ==> accepted[j] != Entry(name, value)
      ensures found && !valueMatched ==> forall j :: dropped <= j < absIndex ==> accepted[j].name != name
      ensures !found ==> forall j :: dropped <= j < |accepted| ==> accepted[j].name != name
    {
      found, absIndex, valueMatched := false, 0, false;
      for off := 0 to count
        invariant !valueMatched
        invariant forall j :: dropped <= j < dropped + off ==> accepted[j] != Entry(name, value)
        invariant found ==> dropped <= absIndex < dropped + off && accepted[absIndex].name == name
                            && forall j :: dropped <= j < absIndex ==> accepted[j].name != name
        invariant !found ==> forall j :: dropped <= j < dropped + off ==> accepted[j].name != name
      {
        var m := Classify(off, name, value);
        if m == 2 {
          return true, dropped + off, true;
        }
        if m == 1 && !found {
          absIndex, valueMatched := dropped + off, false;
          found := true;
        }
      }
    }
  }

  lemma {:induction false} NothingLeft(s: seq<Entry>)
    ensures TotalSize(s[|s|..]) == 0
  {
  }

  lemma {:induction false} SlotsApart(head: nat, k: nat, count: nat)
    requires head < MAX_ENTRIES && k < count < MAX_ENTRIES
    ensures Slot(head, k) != Slot(head, count)
  {
  }

  lemma {:induction false} FitsAgain(history: seq<Entry>, capacity: nat, e: Entry, d: nat)
    requires d <= |history| && TotalSize(history[d..]) + EntrySize(e) <= capacity
    requires forall j :: 0 <= j < d ==> TotalSize(history[j..]) + EntrySize(e) > capacity
    ensures Dropped(history + [e], capacity) == d
  {
    var s := history + [e];
    forall j | 0 <= j <= |history| ensures TotalSize(s[j..]) == TotalSize(history[j..]) + EntrySize(e) {
      assert s[j..] == history[j..] + [e];
      TotalSizeAppend(history[j..], e);
    }
    DroppedUnique(s, capacity, d);
  }

  /** Equal lengths, and no byte contributes a difference. */
  method BytesEqual(a: seq<byte>, b: seq<byte>) returns (same: bool)
    ensures same == (a == b)
  {
    if |a| != |b| {
      return false;
    }
    var diff: nat := 0;
    for i := 0 to |a|
      invariant diff == 0 <==> a[..i] == b[..i]
    {
      Difference(diff, a[i], b[i]);
      diff := Or(diff, Xor(a[i], b[i]));
      assert a[..i + 1] == a[..i] + [a[i]] && b[..i + 1] == b[..i] + [b[i]];
    }
    assert a[..|a|] == a && b[..|b|] == b;
    return diff == 0;
  }
}
