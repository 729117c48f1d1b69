/** The command-history ring of quadricSolver.h: 64 fixed slots of C strings,
    a write cursor `end` that advances modulo 64, and recall by recency offset
    (1 = most recent put). An empty string in a slot means "never written". */
module CommandHistory {

  import opened Wrappers

  /** Number of slots in the ring. */
  const HISTORY_LEN: nat := 64
  /** Bytes per slot, terminating NUL included. */
  const HISTORY_SIZE: nat := 128

  /** `s` can be held by a C string: it has no NUL character, which would
      end the string early. */
  predicate NoNul(s: string)
  {
    forall k :: 0 <= k < |s| ==> s[k] != '\0'
  }

  /** The slot that recency offset `n` selects when the write cursor is at
      `end`: (end - n) mod HISTORY_LEN. The C code computes it in size_t,
      and since 2^64 is a multiple of HISTORY_LEN the wrapped unsigned
      difference leaves the same remainder as the mathematical one. */
  function SlotOf(end: nat, n: nat): nat
  {
    (end - n) % HISTORY_LEN
  }

  /** The string put `n` calls ago, or "" when fewer than `n` were put. */
  function Recent(puts: seq<string>, n: nat): string
    requires n >= 1
  {
    if n <= |puts| then puts[|puts| - n] else ""
  }

  /** What a ring that has seen `puts` should answer for recency offset `n`:
      the string put `n` calls ago, provided it is one of the last
      HISTORY_LEN puts and is not empty. */
  function Recall(puts: seq<string>, n: nat): (r: Option<string>)
    ensures r.Some? <==> 1 <= n <= HISTORY_LEN && n <= |puts| && puts[|puts| - n] != ""
    ensures r.Some? ==> r.value == puts[|puts| - n]
  {
    if 1 <= n <= HISTORY_LEN && Recent(puts, n) != "" then Some(Recent(puts, n))
    else None
  }

  /** The listing, from offset `i` on, of a ring that has seen `puts`:
      (offset, entry) pairs most recent first, up to the first offset with
      nothing to recall, and never past HISTORY_LEN. */
  function ListFrom(puts: seq<string>, i: nat): (r: seq<(nat, string)>)
    requires i >= 1
    ensures i <= HISTORY_LEN + 1 ==> |r| <= HISTORY_LEN + 1 - i
    ensures forall k :: 0 <= k < |r| ==> r[k].0 == i + k && Recall(puts, i + k) == Some(r[k].1)
    decreases HISTORY_LEN + 1 - i
  {
    if i > HISTORY_LEN || Recall(puts, i).None? then []
    else [(i, Recall(puts, i).value)] + ListFrom(puts, i + 1)
  }

  /** Advancing the cursor by one shifts every recency offset by one: offset
      1 now selects the slot just written, and offset n > 1 the slot that
      offset n - 1 selected before, which is a different slot. */
  lemma SlotShift(end: nat, n: nat)
    requires end < HISTORY_LEN && 1 <= n <= HISTORY_LEN
    ensures n == 1 ==> SlotOf((end + 1) % HISTORY_LEN, n) == end
    ensures n > 1 ==> SlotOf((end + 1) % HISTORY_LEN, n) == SlotOf(end, n - 1) != end
  {
  }

  /** Recency offsets repeat with period HISTORY_LEN: offset `i` selects
      the same slot as the offset in 1..HISTORY_LEN congruent to it. */
  lemma SlotPeriodic(end: nat, i: nat)
    requires end < HISTORY_LEN && 1 <= i
    ensures SlotOf(end, i) == SlotOf(end, (i - 1) % HISTORY_LEN + 1)
  {
  }

  /** Ring recall: when every put was non-empty, offsets 1..HISTORY_LEN
      recall the last puts in reverse order, and no other offset recalls
      anything. */
  lemma RecallIsRecent(puts: seq<string>, n: nat)
    requires forall i :: 0 <= i < |puts| ==> puts[i] != ""
    ensures 1 <= n <= HISTORY_LEN && n <= |puts| ==> Recall(puts, n) == Some(puts[|puts| - n])
    ensures n == 0 || n > HISTORY_LEN || n > |puts| ==> Recall(puts, n) == None
  {
  }

  /** Putting one more string makes it offset 1 and shifts every other
      offset below HISTORY_LEN by one. */
  lemma RecallAfterPut(puts: seq<string>, s: string, n: nat)
    requires 1 <= n
    ensures Recall(puts + [s], 1) == if s == "" then None else Some(s)
    ensures n < HISTORY_LEN ==> Recall(puts + [s], n + 1) == Recall(puts, n)
  {
  }

  /** When every put was non-empty, the listing holds exactly the last
      min(|puts|, HISTORY_LEN) puts, most recent first, numbered from `i`. */
  lemma {:induction false} ListFromRecent(puts: seq<string>, i: nat)
    requires forall k :: 0 <= k < |puts| ==> puts[k] != ""
    requires 1 <= i
    ensures var m := if |puts| < HISTORY_LEN then |puts| else HISTORY_LEN;
            |ListFrom(puts, i)| == if i <= m then m - i + 1 else 0
    ensures forall k :: 0 <= k < |ListFrom(puts, i)| ==>
              ListFrom(puts, i)[k] == (i + k, puts[|puts| - (i + k)])
    decreases HISTORY_LEN + 1 - i
  {
    if i <= HISTORY_LEN && i <= |puts| {
      ListFromRecent(puts, i + 1);
    }
  }

  /** A listing is determined by what each offset recalls: if `entries`
      pairs offsets 1, 2, ... with what they recall and stops at the first
      offset that recalls nothing (or at HISTORY_LEN), it is ListFrom from
      offset 1 on; each suffix is ListFrom from the matching offset. */
  lemma {:induction false} ListFromMatches(puts: seq<string>, entries: seq<(nat, string)>, i: nat)
    requires 1 <= i <= |entries| + 1 <= HISTORY_LEN + 1
    requires forall k :: 0 <= k < |entries| ==> entries[k].0 == k + 1 && Recall(puts, k + 1) == Some(entries[k].1)
    requires |entries| < HISTORY_LEN ==> Recall(puts, |entries| + 1) == None
    ensures ListFrom(puts, i) == entries[i - 1..]
    decreases HISTORY_LEN + 1 - i
  {
    if i <= |entries| {
      ListFromMatches(puts, entries, i + 1);
      assert entries[i - 1..] == [entries[i - 1]] + entries[i..];
    }
  }

  /** A listing of full length leaves no gap: if ListFrom from offset `i`
      has an entry for every offset i..HISTORY_LEN, each of those offsets
      recalls a line. */
  lemma {:induction false} ListFromFull(puts: seq<string>, i: nat, n: nat)
    requires 1 <= i <= n <= HISTORY_LEN
    requires |ListFrom(puts, i)| == HISTORY_LEN + 1 - i
    ensures Recall(puts, n).Some?
    decreases n - i
  {
    if i < n {
      ListFromFull(puts, i + 1, n);
    }
  }

  /** The last HISTORY_LEN puts alone decide whether the listing is full:
      when they are all non-empty it has HISTORY_LEN entries, whatever was
      put before them (empty lines included). */
  lemma {:induction false} ListFromLastFull(puts: seq<string>, i: nat)
    requires HISTORY_LEN <= |puts|
    requires forall k :: |puts| - HISTORY_LEN <= k < |puts| ==> puts[k] != ""
    requires 1 <= i <= HISTORY_LEN + 1
    ensures |ListFrom(puts, i)| == HISTORY_LEN + 1 - i
    decreases HISTORY_LEN + 1 - i
  {
    if i <= HISTORY_LEN {
      ListFromLastFull(puts, i + 1);
    }
  }

  /** The command history. `log` holds the 64 slots and `end` the write
      cursor; `Puts` is the ghost record of every string put so far. The
      object invariant is the ring itself: the slot that recency offset `n`
      selects holds the string put `n` calls ago. The C fields `cur` and
      `isEmpty` are written but never read, so they are not carried. */
  class History {
    var log: array<string>
    var end: nat
    var isActive: bool
    ghost var Puts: seq<string>

    ghost predicate Valid()
      reads this, log
    {
      log.Length == HISTORY_LEN &&
      end < HISTORY_LEN &&
      (isActive ==> forall n :: 1 <= n <= HISTORY_LEN ==> log[SlotOf(end, n)] == Recent(Puts, n))
    }

    /** history_construct. The slot allocations that fail are the ones in
        `failedSlots`; any failure leaves the ring inactive. Every slot that
        was allocated starts out empty; what a failed slot (NULL in C) holds
        is left unspecified, since an inactive ring is never read. */
    constructor (failedSlots: set<nat>)
      ensures Valid() && fresh(log)
      ensures end == 0 && Puts == []
      ensures forall j :: 0 <= j < HISTORY_LEN && j !in failedSlots ==> log[j] == ""
      ensures isActive <==> forall j :: 0 <= j < HISTORY_LEN ==> j !in failedSlots
    {
      var active := true;
      var slots := new string[HISTORY_LEN];
      for i := 0 to HISTORY_LEN
        invariant active <==> forall j :: 0 <= j < i ==> j !in failedSlots
        invariant forall j :: 0 <= j < i && j !in failedSlots ==> slots[j] == ""
      {
        if i in failedSlots {
          active := false;
        } else {
          slots[i] := "";
        }
      }
      log, isActive := slots, active;
      end := 0;
      Puts := [];
    }

    /** history_put: copies `s` into slot `end` and advances the cursor.
        The C code neither truncates `s` nor checks `isActive`. */
    method Put(s: string)
      requires Valid() && isActive && |s| < HISTORY_SIZE && NoNul(s)
      modifies this, log
      ensures Valid() && log == old(log) && isActive
      ensures Puts == old(Puts) + [s]
      ensures end == (old(end) + 1) % HISTORY_LEN
      ensures log[old(end)] == s
      ensures forall j :: 0 <= j < HISTORY_LEN && j != old(end) ==> log[j] == old(log[j])
    {
      ghost var oldEnd, oldLog := end, log[..];
      log[end] := s;
      end := (end + 1) % HISTORY_LEN;
      Puts := Puts + [s];
      forall n | 1 <= n <= HISTORY_LEN
        ensures log[SlotOf(end, n)] == Recent(Puts, n)
      {
        SlotShift(oldEnd, n);
        if n > 1 {
          assert log[SlotOf(end, n)] == oldLog[SlotOf(oldEnd, n - 1)];
        }
      }
    }

    /** history_get: the entry at recency offset `n`, None for NULL. Offset 0
        selects the same slot as offset HISTORY_LEN: the oldest entry once
        the ring has wrapped. */
    method Get(n: nat) returns (r: Option<string>)
      requires Valid()
      ensures !isActive || n > HISTORY_LEN ==> r == None
      ensures isActive && 1 <= n <= HISTORY_LEN ==> r == Recall(Puts, n)
      ensures isActive && n == 0 ==> r == Recall(Puts, HISTORY_LEN)
      ensures isActive && n <= HISTORY_LEN ==>
                r == if log[SlotOf(end, n)] != "" then Some(log[SlotOf(end, n)]) else None
    {
      if !isActive || n > HISTORY_LEN {
        return None;
      }
      var slot := (end - n) % HISTORY_LEN;
      assert slot == SlotOf(end, if n == 0 then HISTORY_LEN else n);
      if log[slot] != "" {
        r := Some(log[slot]);
      } else {
        r := None;
      }
    }

    /** history_list: the (offset, entry) pairs it prints, most recent first.
        The C loop has no bound and never ends once all 64 slots are
        non-empty; this one stops after HISTORY_LEN entries and reports that
        case in `unbounded`. */
    method List() returns (entries: seq<(nat, string)>, unbounded: bool)
      requires Valid()
      ensures !isActive ==> entries == [] && !unbounded
      ensures isActive ==> entries == ListFrom(Puts, 1)
      ensures unbounded <==> isActive && |entries| == HISTORY_LEN
    {
      entries, unbounded := [], false;
      if !isActive {
        return;
      }
      var i: nat := 1;
      while i <= HISTORY_LEN && log[(end - i) % HISTORY_LEN] != ""
        invariant 1 <= i <= HISTORY_LEN + 1
        invariant |entries| == i - 1
        invariant forall k :: 0 <= k < |entries| ==> entries[k].0 == k + 1 && Recall(Puts, k + 1) == Some(entries[k].1)
        decreases HISTORY_LEN + 1 - i
      {
        assert log[SlotOf(end, i)] == Recent(Puts, i);
        entries := entries + [(i, log[(end - i) % HISTORY_LEN])];
        i := i + 1;
      }
      if i <= HISTORY_LEN {
        assert log[SlotOf(end, i)] == Recent(Puts, i);
      }
      ListFromMatches(Puts, entries, 1);
      unbounded := i > HISTORY_LEN;
    }

    /** The C listing loop goes on while the slot at offset `i` is non-empty.
        Once the listing reaches HISTORY_LEN entries (the case List reports
        as `unbounded`), that slot is non-empty for every `i >= 1`, since
        offsets repeat with period HISTORY_LEN: the loop never stops,
        whatever was put before the last HISTORY_LEN lines. */
    lemma ListingNeverEnds(i: nat)
      requires Valid() && isActive && |ListFrom(Puts, 1)| == HISTORY_LEN
      requires 1 <= i
      ensures log[SlotOf(end, i)] != ""
    {
      var n := (i - 1) % HISTORY_LEN + 1;
      ListFromFull(Puts, 1, n);
      SlotPeriodic(end, i);
      assert log[SlotOf(end, n)] == Recent(Puts, n);
    }
  }
}
