/**
  The root directory scan as a pure function of its 32-byte entries.  A file is
  recorded only if a long-name entry precedes it, and each long-name entry is
  used up by the file that follows.
 */
module Directory {
  import opened Bytes
  import opened Disk

  const ENTRY := 32
  const ENTRY_UNUSED: Byte := 0xe5
  const ENTRY_LFN: Byte := 0x0f
  const ENTRY_DIR: Byte := 0x10

  type Entry = e: seq<Byte> | |e| == ENTRY witness Zeros(ENTRY)

  predicate Ends(e: Entry) { e[0] == 0 }
  predicate LongName(e: Entry) { e[0] != ENTRY_UNUSED && e[11] == ENTRY_LFN }

  /** An entry that names a file: in use, and neither a long name nor a directory. */
  predicate Plain(e: Entry) { e[0] != ENTRY_UNUSED && e[11] != ENTRY_LFN && e[11] != ENTRY_DIR }

  function Entries(s: Sector): (es: seq<Entry>)
    ensures |es| == 16
  {
    seq(16, i requires 0 <= i < 16 => s[ENTRY * i..ENTRY * i + ENTRY])
  }

  /** Entry k is bytes 32k to 32k + 31. */
  lemma EntriesAreSlices(s: Sector, k: nat)
    requires k < SECTOR
    ensures Entries(s)[k / 32][k % 32] == s[k]
  {
  }

  /** The entries before the first that begins with a zero byte. */
  function UntilEnd(es: seq<Entry>): seq<Entry> {
    if es == [] || Ends(es[0]) then [] else [es[0]] + UntilEnd(es[1..])
  }

  /** The entries that count are those before the first whose first byte is 0. */
  lemma {:induction false} UntilEndStops(es: seq<Entry>, n: nat)
    requires n <= |es| && (forall k | 0 <= k < n :: es[k][0] != 0) && (n < |es| ==> es[n][0] == 0)
    ensures UntilEnd(es) == es[..n]
  {
    if n > 0 {
      UntilEndStops(es[1..], n - 1);
      assert es[..n] == [es[0]] + es[1..][..n - 1];
    }
  }

  /** The state of the scan: a long name is waiting, the entries recorded, the last long name seen. */
  datatype Scan = Scan(found: bool, picked: seq<nat>, name: seq<nat>)

  function Scanned(es: seq<Entry>): Scan {
    if es == [] then Scan(false, [], [])
    else
      var n := |es| - 1;
      var s, e := Scanned(es[..n]), es[n];
      if LongName(e) then Scan(true, s.picked, [n])
      else if Plain(e) && s.found then Scan(false, s.picked + [n], s.name)
      else s
  }

  /** What one more entry does, by its first byte and its attribute byte. */
  lemma EntryEffect(es: seq<Entry>, e: Entry)
    ensures var s := Scanned(es);
      Scanned(es + [e]) == (
        if e[0] == 0xe5 then s                                                             // deleted
        else if e[11] == 0x0f then Scan(true, s.picked, [|es|])                            // part of a long name
        else if e[11] == 0x10 || !s.found then s                                           // a directory, or unnamed
        else Scan(false, s.picked + [|es|], s.name))
  {
    assert (es + [e])[..|es|] == es;
  }

  // ---------- What the flag computes ----------

  /** A long name at j waits at position n: no plain entry has used it up. */
  ghost predicate Waiting(es: seq<Entry>, j: nat, n: nat)
    requires n <= |es|
  {
    j < n && LongName(es[j]) && forall k | j < k < n :: !Plain(es[k])
  }

  /** Some long name waits at position n. */
  ghost predicate Named(es: seq<Entry>, n: nat)
    requires n <= |es|
  {
    exists j: nat :: Waiting(es, j, n)
  }

  /** What waits at a position depends only on the entries before it. */
  lemma SameNamed(es: seq<Entry>, n: nat, i: nat)
    requires i <= n <= |es|
    ensures Named(es, i) <==> Named(es[..n], i)
  {
    hide Plain, LongName;
    var before := es[..n];
    assert forall k | 0 <= k < n :: before[k] == es[k];
    if j: nat :| Waiting(before, j, i) { assert Waiting(es, j, i); }
    if j: nat :| Waiting(es, j, i) { assert Waiting(before, j, i); }
  }

  /** A long name waits after one more entry if the entry is one, or if one waited and the entry is no file. */
  lemma NamedStep(es: seq<Entry>)
    requires es != []
    ensures var n := |es| - 1; Named(es, |es|) <==> LongName(es[n]) || (Named(es[..n], n) && !Plain(es[n]))
  {
    hide Plain, LongName;
    var n, m := |es| - 1, |es|;
    SameNamed(es, n, n);
    if LongName(es[n]) { assert Waiting(es, n, m); }
    if j: nat :| Waiting(es, j, n) && !Plain(es[n]) { assert Waiting(es, j, m); }
    if j: nat :| Waiting(es, j, m) && j != n { assert Waiting(es, j, n); }
  }

  /** One more entry. */
  lemma ScanStep(es: seq<Entry>)
    requires es != []
    ensures var n := |es| - 1;
      var s, e := Scanned(es[..n]), es[n];
      && Scanned(es).picked == (if Plain(e) && s.found then s.picked + [n] else s.picked)
      && Scanned(es).found == (LongName(e) || (s.found && !Plain(e)))
      && Scanned(es).name == (if LongName(e) then [n] else s.name)
  {
  }

  lemma {:induction false} FoundMeansWaiting(es: seq<Entry>)
    ensures Scanned(es).found <==> Named(es, |es|)
  {
    hide Named, Plain, LongName;
    if es != [] {
      FoundMeansWaiting(es[..|es| - 1]);
      ScanStep(es);
      NamedStep(es);
    } else {
      NothingWaits();
    }
  }

  lemma NothingWaits()
    ensures !Named([], 0) && Scanned([]) == Scan(false, [], [])
  {
  }

  /** The recorded entries, in order, are exactly the plain ones for which a long name waits. */
  lemma {:induction false} PickedAreNamedFiles(es: seq<Entry>)
    ensures forall i :: i in Scanned(es).picked <==> 0 <= i < |es| && Plain(es[i]) && Named(es, i)
    ensures forall a, b | 0 <= a < b < |Scanned(es).picked| :: Scanned(es).picked[a] < Scanned(es).picked[b]
  {
    hide Scanned, Named, Plain, LongName;
    if es != [] {
      var n := |es| - 1;
      var before := es[..n];
      PickedAreNamedFiles(before);
      FoundMeansWaiting(before);
      ScanStep(es);
      var earlier := Scanned(before).picked;
      assert forall a | 0 <= a < |earlier| :: earlier[a] in earlier && earlier[a] < n;
      forall i | 0 <= i <= n
        ensures Named(es, i) <==> Named(before, i)
      {
        SameNamed(es, n, i);
      }
      assert forall i | 0 <= i < n :: before[i] == es[i];
    } else {
      NothingWaits();
    }
  }

  /** A file takes two entries, so a sector of 16 holds at most 8. */
  lemma {:induction false} TwoEntriesPerFile(es: seq<Entry>)
    ensures 2 * |Scanned(es).picked| + (if Scanned(es).found then 1 else 0) <= |es|
  {
    if es != [] {
      TwoEntriesPerFile(es[..|es| - 1]);
    }
  }

  lemma {:induction false} PickedInRange(es: seq<Entry>)
    ensures forall i | i in Scanned(es).picked :: i < |es|
    ensures |Scanned(es).name| <= 1 && forall i | i in Scanned(es).name :: i < |es|
  {
    if es != [] {
      PickedInRange(es[..|es| - 1]);
    }
  }

  /** The name kept is that of the last long-name entry, whichever file it belongs to. */
  lemma {:induction false} NameIsLastLongName(es: seq<Entry>, i: nat)
    requires i < |es| && LongName(es[i]) && forall k | i < k < |es| :: !LongName(es[k])
    ensures Scanned(es).name == [i]
  {
    var n := |es| - 1;
    if i < n {
      NameIsLastLongName(es[..n], i);
    }
  }

  /** Entry j is the long name that belongs to the file at p: the latest one waiting there. */
  ghost predicate NameFor(es: seq<Entry>, p: nat, j: nat) {
    p <= |es| && Waiting(es, j, p) && forall i | j < i < p :: !LongName(es[i])
  }

  /** Every recorded file has such an entry. */
  lemma PickedHasName(es: seq<Entry>, p: nat)
    requires p in Scanned(es).picked
    ensures p < |es| && Plain(es[p]) && exists j: nat :: NameFor(es, p, j)
  {
    hide Scanned, Plain, LongName;
    PickedAreNamedFiles(es);
    assert Named(es, p);
    var j: nat :| Waiting(es, j, p);
    var last := LatestName(es, j, p);
    assert NameFor(es, p, last);
  }

  /** The latest long name from j on, before p. */
  lemma LatestName(es: seq<Entry>, j: nat, p: nat) returns (last: nat)
    requires j < p <= |es| && LongName(es[j])
    ensures j <= last < p && LongName(es[last]) && forall k | last < k < p :: !LongName(es[k])
  {
    hide LongName;
    last := j;
    var i := j + 1;
    while i < p
      invariant j <= last < i <= p && LongName(es[last])
      invariant forall k | last < k < i :: !LongName(es[k])
    {
      if LongName(es[i]) { last := i; }
      i := i + 1;
    }
  }

  /** The name kept at the end is that of the file at p exactly when no long name follows p. */
  lemma LastNameAfter(es: seq<Entry>, p: nat, j: nat)
    requires p < |es| && Plain(es[p]) && NameFor(es, p, j)
    ensures Scanned(es).name != [] && j <= Scanned(es).name[0] < |es| && LongName(es[Scanned(es).name[0]])
    ensures Scanned(es).name[0] == j <==> forall i: nat | p < i < |es| :: !LongName(es[i])
  {
    hide Scanned;
    var last := LatestName(es, j, |es|);
    NameIsLastLongName(es, last);
  }

  /** An entry with attribute kind whose bytes 0 and 1 are c. */
  function Sample(c: Byte, kind: Byte): Entry {
    Zeros(ENTRY)[0 := c][1 := c][11 := kind]
  }

  function TwoPairs(): seq<Entry> {
    [Sample(0x61, ENTRY_LFN), Sample(0x61, 0x20), Sample(0x62, ENTRY_LFN), Sample(0x62, 0x20)]
  }

  lemma TwoPairsAreScanned(es: seq<Entry>)
    requires es == TwoPairs()
    ensures LongName(es[0]) && Plain(es[1]) && LongName(es[2]) && Plain(es[3])
    ensures Scanned(es) == Scan(false, [1, 3], [2])
  {
    hide Scanned, Sample, Plain, LongName;
    NothingWaits();
    SamplesAre(0x61);
    SamplesAre(0x62);
    assert es[..3][..2] == es[..2] && es[..2][..1] == es[..1] && es[..1][..0] == [];
    ScanStep(es[..1]);
    ScanStep(es[..2]);
    ScanStep(es[..3]);
    ScanStep(es);
  }

  lemma SamplesAre(c: Byte)
    requires c != ENTRY_UNUSED
    ensures LongName(Sample(c, ENTRY_LFN)) && Plain(Sample(c, 0x20))
    ensures !Plain(Sample(c, ENTRY_LFN)) && !LongName(Sample(c, 0x20))
  {
  }
}
