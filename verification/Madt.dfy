/**
  The walk over the records of the MADT (section 5.2.12 of the ACPI
  Specification): each record starts with its type and its length, and the walk
  steps by the length.  The firmware's side, laying a list of records out as
  bytes, is the partner the walk is proved against.
 */
module Madt {
  import opened Bytes
  import opened Disk

  const HEADER := 44
  const LOCAL_APIC: Byte := 0
  const IO_APIC: Byte := 1

  /** A record of the table: its type, and what follows type and length. */
  datatype Record = Record(kind: Byte, body: seq<Byte>)

  /** Long enough for the fields its type is read with, short enough for a length byte. */
  predicate Complete(r: Record) {
    |r.body| + 2 < 256 && (r.kind == LOCAL_APIC ==> |r.body| >= 1) && (r.kind == IO_APIC ==> |r.body| >= 6)
  }

  predicate AllComplete(rs: seq<Record>) {
    forall k | 0 <= k < |rs| :: Complete(rs[k])
  }

  function Encode(r: Record): seq<Byte>
    requires Complete(r)
  {
    [r.kind, |r.body| + 2] + r.body
  }

  function EncodeAll(rs: seq<Record>): seq<Byte>
    requires AllComplete(rs)
  {
    if rs == [] then [] else Encode(rs[0]) + EncodeAll(rs[1..])
  }

  /** From offset e the lengths lead exactly to end, each record holding the fields its type is read with. */
  predicate WellFormed(table: seq<Byte>, e: nat, end: nat)
    requires end <= |table|
    decreases end - e
  {
    e == end || (e + 2 <= end && table[e + 1] >= 2 && e + table[e + 1] <= end
                 && (table[e] == LOCAL_APIC ==> table[e + 1] >= 3)
                 && (table[e] == IO_APIC ==> table[e + 1] >= 8)
                 && WellFormed(table, e + table[e + 1], end))
  }

  /** The records the lengths delimit. */
  function Records(table: seq<Byte>, e: nat, end: nat): seq<Record>
    requires end <= |table| && WellFormed(table, e, end)
    decreases end - e
  {
    if e == end then []
    else [Record(table[e], table[e + 2..e + table[e + 1]])] + Records(table, e + table[e + 1], end)
  }

  /** The address of the last I/O APIC record, or what was there before. */
  function LastIoApic(rs: seq<Record>, before: nat): nat
    requires AllComplete(rs)
  {
    if rs == [] then before
    else if rs[|rs| - 1].kind == IO_APIC then Word32(rs[|rs| - 1].body, 2)
    else LastIoApic(rs[..|rs| - 1], before)
  }

  /** The identifiers of the local APICs, in order. */
  function LocalApicIds(rs: seq<Record>): seq<Byte>
    requires AllComplete(rs)
  {
    if rs == [] then []
    else
      var ids, r := LocalApicIds(rs[..|rs| - 1]), rs[|rs| - 1];
      if r.kind == LOCAL_APIC then ids + [r.body[0]] else ids
  }

  // ---------- The walk undoes the layout ----------

  lemma {:induction false} RecordsAreComplete(table: seq<Byte>, e: nat, end: nat)
    requires end <= |table| && WellFormed(table, e, end)
    ensures AllComplete(Records(table, e, end))
    decreases end - e
  {
    if e < end {
      RecordsAreComplete(table, e + table[e + 1], end);
    }
  }

  /** Any list of complete records, laid out anywhere in a table, is well-formed and read back record by record. */
  lemma {:induction false} LaidOutRecordsAreReadBack(table: seq<Byte>, e: nat, end: nat, rs: seq<Record>)
    requires AllComplete(rs) && e <= end <= |table| && table[e..end] == EncodeAll(rs)
    ensures WellFormed(table, e, end) && Records(table, e, end) == rs
    decreases |rs|
  {
    hide Encode;
    if rs == [] {
      assert e == end;
    } else {
      var r := rs[0];
      var n := |r.body| + 2;
      EncodedRecord(r);
      SplitSlice(table, e, end, Encode(r), EncodeAll(rs[1..]));
      SliceOf(table, e, Encode(r));
      LaidOutRecordsAreReadBack(table, e + n, end, rs[1..]);
      assert rs == [r] + rs[1..];
    }
  }

  lemma EncodedRecord(r: Record)
    requires Complete(r)
    ensures var s := Encode(r);
      |s| == |r.body| + 2 && s[0] == r.kind && s[1] == |r.body| + 2 && s[2..] == r.body
  {
  }

  lemma SplitSlice(table: seq<Byte>, e: nat, end: nat, a: seq<Byte>, b: seq<Byte>)
    requires e <= end <= |table| && table[e..end] == a + b
    ensures e + |a| <= end && table[e..e + |a|] == a && table[e + |a|..end] == b
  {
    assert table[e..e + |a|] == table[e..end][..|a|];
    assert table[e + |a|..end] == table[e..end][|a|..];
  }

  lemma SliceOf(table: seq<Byte>, e: nat, s: seq<Byte>)
    requires e + |s| <= |table| && table[e..e + |s|] == s && |s| >= 2
    ensures table[e] == s[0] && table[e + 1] == s[1] && table[e + 2..e + |s|] == s[2..]
  {
    assert table[e + 2..e + |s|] == table[e..e + |s|][2..];
  }

  /** Conversely, every well-formed stretch is the layout of its records. */
  lemma {:induction false} WellFormedIsALayout(table: seq<Byte>, e: nat, end: nat)
    requires end <= |table| && WellFormed(table, e, end)
    ensures e <= end && AllComplete(Records(table, e, end)) && EncodeAll(Records(table, e, end)) == table[e..end]
    decreases end - e
  {
    hide Complete, Encode, EncodeAll;
    RecordsAreComplete(table, e, end);
    if e < end {
      var n := table[e + 1];
      RecordsAreComplete(table, e + n, end);
      WellFormedIsALayout(table, e + n, end);
      var rs := Records(table, e, end);
      assert rs[0] == Record(table[e], table[e + 2..e + n]) && rs[1..] == Records(table, e + n, end);
      EncodeFirst(rs, table[e..e + n]);
      assert table[e..end] == table[e..e + n] + table[e + n..end];
    } else {
      EncodeNone();
    }
  }

  lemma EncodeNone()
    ensures AllComplete([]) && EncodeAll([]) == []
  {
  }

  lemma EncodeFirst(rs: seq<Record>, s: seq<Byte>)
    requires AllComplete(rs) && rs != [] && AllComplete(rs[1..])
    requires |s| == |rs[0].body| + 2 && s[0] == rs[0].kind && s[1] as nat == |s| && s[2..] == rs[0].body
    ensures EncodeAll(rs) == s + EncodeAll(rs[1..])
  {
    assert Complete(rs[0]);
    assert Encode(rs[0]) == s;
  }

  // ---------- What the walk sees, whatever the lengths ----------

  /** No length on the way from e to end is 0, which would stop the walk from advancing. */
  predicate Advances(table: seq<Byte>, e: nat, end: nat)
    requires end + 8 <= |table|
    decreases end - e
  {
    e >= end || (table[e + 1] > 0 && Advances(table, e + table[e + 1], end))
  }

  /** Where the walk stands after n steps; it stays where it is once it has reached end. */
  function Position(table: seq<Byte>, e: nat, end: nat, n: nat): nat
    requires end + 8 <= |table|
  {
    if n == 0 then e
    else
      var p := Position(table, e, end, n - 1);
      if p >= end then p else p + table[p + 1]
  }

  /** The first step on its own. */
  lemma {:induction false} StepFirst(table: seq<Byte>, e: nat, end: nat, n: nat)
    requires end + 8 <= |table| && e < end
    ensures Position(table, e, end, n + 1) == Position(table, e + table[e + 1], end, n)
  {
    if n > 0 {
      StepFirst(table, e, end, n - 1);
    } else {
      assert Position(table, e, end, 0) == e;
    }
  }

  lemma {:induction false} ReachedAdvances(table: seq<Byte>, e: nat, end: nat, n: nat)
    requires end + 8 <= |table| && Position(table, e, end, n) >= end
    ensures Advances(table, e, end)
    decreases n
  {
    if e < end {
      if n > 0 {
        StepFirst(table, e, end, n - 1);
        ReachedAdvances(table, e + table[e + 1], end, n - 1);
      }
    }
  }

  lemma {:induction false} AdvancesReaches(table: seq<Byte>, e: nat, end: nat) returns (n: nat)
    requires end + 8 <= |table| && Advances(table, e, end)
    ensures Position(table, e, end, n) >= end
    decreases end - e
  {
    if e >= end {
      n := 0;
    } else {
      n := AdvancesReaches(table, e + table[e + 1], end);
      StepFirst(table, e, end, n);
      n := n + 1;
    }
  }

  /** The walk reaches the end of the table if and only if it meets no length of 0. */
  lemma WalkEndsIff(table: seq<Byte>, e: nat, end: nat)
    requires end + 8 <= |table|
    ensures (exists n: nat :: Position(table, e, end, n) >= end) <==> Advances(table, e, end)
  {
    if Advances(table, e, end) {
      var n := AdvancesReaches(table, e, end);
    } else {
      forall n: nat
        ensures Position(table, e, end, n) < end
      {
        if Position(table, e, end, n) >= end { ReachedAdvances(table, e, end, n); }
      }
    }
  }

  /** At a record of length 0 the walk stands for ever. */
  lemma {:induction false} ZeroLengthStands(table: seq<Byte>, e: nat, end: nat, n: nat)
    requires end + 8 <= |table| && e < end && table[e + 1] == 0
    ensures Position(table, e, end, n) == e && !Advances(table, e, end)
  {
    if n > 0 {
      ZeroLengthStands(table, e, end, n - 1);
    }
  }

  /** Where it stops. */
  function Stop(table: seq<Byte>, e: nat, end: nat): nat
    requires end + 8 <= |table| && Advances(table, e, end)
    decreases end - e
  {
    if e >= end then e else Stop(table, e + table[e + 1], end)
  }

  /** Never more than a record past the end, and exactly there when the lengths lead to it. */
  lemma {:induction false} StopsAtEnd(table: seq<Byte>, e: nat, end: nat)
    requires end + 8 <= |table| && Advances(table, e, end) && e <= end
    ensures end <= Stop(table, e, end) < end + 255
    ensures WellFormed(table, e, end) ==> Stop(table, e, end) == end
    decreases end - e
  {
    if e < end && e + table[e + 1] <= end {
      StopsAtEnd(table, e + table[e + 1], end);
    }
  }

  /** The type of each record visited and the six bytes after its header, which may belong to what follows it. */
  function Seen(table: seq<Byte>, e: nat, end: nat): seq<Record>
    requires end + 8 <= |table| && Advances(table, e, end)
    decreases end - e
  {
    if e >= end then [] else [Record(table[e], table[e + 2..e + 8])] + Seen(table, e + table[e + 1], end)
  }

  lemma {:induction false} SeenIsComplete(table: seq<Byte>, e: nat, end: nat)
    requires end + 8 <= |table| && Advances(table, e, end)
    ensures AllComplete(Seen(table, e, end))
    decreases end - e
  {
    if e < end {
      SeenIsComplete(table, e + table[e + 1], end);
    }
  }

  /** Equal in the type and in the fields that are read with it. */
  predicate SameFields(r: Record, s: Record)
    requires Complete(r) && Complete(s)
  {
    && r.kind == s.kind && (r.kind == LOCAL_APIC ==> r.body[0] == s.body[0])
    && (r.kind == IO_APIC ==> Word32(r.body, 2) == Word32(s.body, 2))
  }

  ghost predicate SameReadings(rs: seq<Record>, ss: seq<Record>) {
    && AllComplete(rs) && AllComplete(ss) && |rs| == |ss|
    && forall k | 0 <= k < |rs| :: SameFields(rs[k], ss[k])
  }

  lemma {:induction false} SameReadingsAgree(rs: seq<Record>, ss: seq<Record>, before: nat)
    requires SameReadings(rs, ss)
    ensures LastIoApic(rs, before) == LastIoApic(ss, before) && LocalApicIds(rs) == LocalApicIds(ss)
  {
    if rs != [] {
      var n := |rs| - 1;
      assert SameFields(rs[n], ss[n]);
      SameReadingsAgree(rs[..n], ss[..n], before);
    }
  }

  /** On a well-formed table the walk advances and sees the fields of its records, and nothing beyond them. */
  lemma {:induction false} WellFormedIsSeen(table: seq<Byte>, e: nat, end: nat)
    requires end + 8 <= |table| && WellFormed(table, e, end)
    ensures Advances(table, e, end) && SameReadings(Seen(table, e, end), Records(table, e, end))
    decreases end - e
  {
    RecordsAreComplete(table, e, end);
    if e < end {
      WellFormedIsSeen(table, e + table[e + 1], end);
      SeenIsComplete(table, e, end);
      OneSeen(table, e, end);
    }
  }

  lemma OneSeen(table: seq<Byte>, e: nat, end: nat)
    requires end + 8 <= |table| && WellFormed(table, e, end) && e < end
    ensures var r, s := Record(table[e], table[e + 2..e + 8]), Record(table[e], table[e + 2..e + table[e + 1]]);
      Complete(r) && Complete(s) && SameFields(r, s)
  {
  }

  // ---------- The loop ----------

  class Apic {
    var localApic: nat
    var ioApic: nat
    var printed: seq<Byte>

    constructor ()
      ensures localApic == 0 && ioApic == 0 && printed == []
    {
      localApic, ioApic, printed := 0, 0, [];
    }

    /**
      The same loop for tables found through the RSDT and the XSDT; printing an identifier is recorded.  The last
      record may be shorter than the fields read from it, so memory has to go on for a few bytes.
     */
    method ParseMadt(table: seq<Byte>) returns (stop: nat)
      requires |table| >= HEADER && Word32(table, 4) + 8 <= |table| && Advances(table, HEADER, Word32(table, 4))
      modifies this
      ensures localApic == Word32(table, 36)
      ensures stop == Stop(table, HEADER, Word32(table, 4))
      ensures WellFormed(table, HEADER, Word32(table, 4)) ==> stop == Word32(table, 4)
      ensures var rs := Seen(table, HEADER, Word32(table, 4));
        && AllComplete(rs)
        && ioApic == LastIoApic(rs, old(ioApic)) && printed == old(printed) + LocalApicIds(rs)
    {
      hide Advances, Seen, Stop, WellFormed, Word32, LastIoApic, LocalApicIds, AllComplete;
      var entries := HEADER;
      var end := Word32(table, 4);
      localApic := Word32(table, 36);
      ghost var rs := Seen(table, HEADER, end);
      SeenIsComplete(table, HEADER, end);
      ghost var k := 0;
      NoRecords(old(ioApic));
      StopIsEnd(table, end);
      assert rs[..0] == [];
      while entries < end
        invariant Advances(table, entries, end) && Stop(table, entries, end) == Stop(table, HEADER, end)
        invariant k <= |rs| && rs[k..] == Seen(table, entries, end)
        invariant AllComplete(rs[..k])
        invariant ioApic == LastIoApic(rs[..k], old(ioApic)) && printed == old(printed) + LocalApicIds(rs[..k])
        modifies `ioApic, `printed
        decreases end - entries
      {
        StepSeen(table, entries, end, rs, k);
        OneMoreRecord(rs[..k], rs[k], old(ioApic));
        assert rs[..k] + [rs[k]] == rs[..k + 1];
        var kind, length := table[entries], table[entries + 1];
        if kind == LOCAL_APIC {
          printed := printed + [table[entries + 2]];
        } else if kind == IO_APIC {
          ioApic := Word32(table, entries + 4);
        }
        entries := entries + length;
        k := k + 1;
      }
      StepSeen(table, entries, end, rs, k);
      assert rs[..k] == rs;
      stop := entries;
    }
  }

  lemma StopIsEnd(table: seq<Byte>, end: nat)
    requires end + 8 <= |table| && Advances(table, HEADER, end)
    ensures WellFormed(table, HEADER, end) ==> Stop(table, HEADER, end) == end
  {
    hide Advances, Stop;
    if WellFormed(table, HEADER, end) {
      WellFormedIsALayout(table, HEADER, end);
      StopsAtEnd(table, HEADER, end);
    }
  }

  lemma NoRecords(before: nat)
    ensures AllComplete([]) && LastIoApic([], before) == before && LocalApicIds([]) == []
  {
  }

  lemma OneMoreRecord(rs: seq<Record>, r: Record, before: nat)
    requires AllComplete(rs) && Complete(r)
    ensures AllComplete(rs + [r])
    ensures LastIoApic(rs + [r], before) == if r.kind == IO_APIC then Word32(r.body, 2) else LastIoApic(rs, before)
    ensures LocalApicIds(rs + [r]) == if r.kind == LOCAL_APIC then LocalApicIds(rs) + [r.body[0]] else LocalApicIds(rs)
  {
    assert (rs + [r])[..|rs|] == rs;
  }

  /** What one step of the loop meets. */
  lemma StepSeen(table: seq<Byte>, e: nat, end: nat, rs: seq<Record>, k: nat)
    requires end + 8 <= |table| && Advances(table, e, end) && k <= |rs|
    requires rs[k..] == Seen(table, e, end) && AllComplete(rs)
    ensures e >= end ==> k == |rs| && Stop(table, e, end) == e
    ensures e < end ==>
              && k < |rs| && Complete(rs[k]) && table[e + 1] > 0 && Advances(table, e + table[e + 1], end)
              && Stop(table, e, end) == Stop(table, e + table[e + 1], end)
              && rs[k].kind == table[e] && rs[k + 1..] == Seen(table, e + table[e + 1], end)
              && (rs[k].kind == IO_APIC ==> Word32(rs[k].body, 2) == Word32(table, e + 4))
              && (rs[k].kind == LOCAL_APIC ==> rs[k].body[0] == table[e + 2])
  {
    if e < end {
      assert rs[k..][0] == rs[k] && rs[k..][1..] == rs[k + 1..];
    }
  }

  /** For a table the firmware laid out from complete records, what is seen is what was laid out. */
  lemma LaidOutTableIsParsed(table: seq<Byte>, rs: seq<Record>, before: nat)
    requires AllComplete(rs) && |table| >= HEADER && HEADER <= Word32(table, 4) && Word32(table, 4) + 8 <= |table|
    requires table[HEADER..Word32(table, 4)] == EncodeAll(rs)
    ensures var end := Word32(table, 4);
      && Advances(table, HEADER, end) && AllComplete(Seen(table, HEADER, end))
      && LastIoApic(Seen(table, HEADER, end), before) == LastIoApic(rs, before)
      && LocalApicIds(Seen(table, HEADER, end)) == LocalApicIds(rs)
  {
    var end := Word32(table, 4);
    LaidOutRecordsAreReadBack(table, HEADER, end, rs);
    WellFormedIsSeen(table, HEADER, end);
    SameReadingsAgree(Seen(table, HEADER, end), rs, before);
  }

  // ---------- A table as the firmware writes it ----------

  /** The entries of the table by type; the address of an I/O APIC is a 32-bit number. */
  datatype Entry =
    | LocalApic(id: Byte, rest: seq<Byte>)
    | IoApic(id: Byte, reserved: Byte, address: nat, rest: seq<Byte>)
    | Other(kind: Byte, body: seq<Byte>)

  predicate EntryOk(e: Entry) {
    match e
    case LocalApic(_, rest) => |rest| < 253
    case IoApic(_, _, address, rest) => address < 0x1_0000_0000 && |rest| < 248
    case Other(kind, body) => kind > 1 && |body| < 254
  }

  /** Type 0 has the identifier first, type 1 has its address four bytes into the record. */
  function RecordOf(e: Entry): Record
    requires EntryOk(e)
  {
    match e
    case LocalApic(id, rest) => Record(0, [id] + rest)
    case IoApic(id, reserved, address, rest) => Record(1, [id, reserved] + Encode32(address) + rest)
    case Other(kind, body) => Record(kind, body)
  }

  ghost predicate AllOk(es: seq<Entry>) {
    forall k | 0 <= k < |es| :: EntryOk(es[k])
  }

  function RecordsOf(es: seq<Entry>): (rs: seq<Record>)
    requires forall k | 0 <= k < |es| :: EntryOk(es[k])
    ensures |rs| == |es|
  {
    if es == [] then [] else RecordsOf(es[..|es| - 1]) + [RecordOf(es[|es| - 1])]
  }

  /** The address of the last I/O APIC. */
  function LastAddress(es: seq<Entry>, before: nat): nat {
    if es == [] then before
    else if es[|es| - 1].IoApic? then es[|es| - 1].address
    else LastAddress(es[..|es| - 1], before)
  }

  function Identifiers(es: seq<Entry>): seq<Byte> {
    if es == [] then []
    else Identifiers(es[..|es| - 1]) + if es[|es| - 1].LocalApic? then [es[|es| - 1].id] else []
  }

  lemma RecordIsRead(e: Entry)
    requires EntryOk(e)
    ensures var r := RecordOf(e);
      && Complete(r) && (r.kind == LOCAL_APIC <==> e.LocalApic?) && (r.kind == IO_APIC <==> e.IoApic?)
      && (e.LocalApic? ==> r.body[0] == e.id) && (e.IoApic? ==> Word32(r.body, 2) == e.address)
  {
    hide Encode32, Word32;
    if e.IoApic? {
      var b := RecordOf(e).body;
      assert b[2..6] == Encode32(e.address);
      Written32(b, 2, e.address);
    }
  }

  lemma {:induction false} EntriesAreRead(es: seq<Entry>, before: nat)
    requires AllOk(es)
    ensures AllComplete(RecordsOf(es))
    ensures LastIoApic(RecordsOf(es), before) == LastAddress(es, before)
    ensures LocalApicIds(RecordsOf(es)) == Identifiers(es)
  {
    hide RecordOf, Complete, AllComplete, LastIoApic, LocalApicIds, Word32;
    if es == [] {
      NoRecords(before);
    } else {
      var n := |es| - 1;
      EntriesAreRead(es[..n], before);
      RecordIsRead(es[n]);
      OneMoreRecord(RecordsOf(es[..n]), RecordOf(es[n]), before);
    }
  }

  /** Signature, length, the rest of the common header, the local APIC's address, flags, and the records. */
  function TableOf(signature: seq<Byte>, common: seq<Byte>, localApic: nat, flags: seq<Byte>, rs: seq<Record>): seq<Byte>
    requires |signature| == 4 && |common| == 28 && |flags| == 4 && localApic < 0x1_0000_0000
    requires AllComplete(rs) && 44 + |EncodeAll(rs)| < 0x1_0000_0000
  {
    signature + Encode32(44 + |EncodeAll(rs)|) + common + Encode32(localApic) + flags + EncodeAll(rs)
  }

  lemma HeaderIsRead(signature: seq<Byte>, common: seq<Byte>, localApic: nat, flags: seq<Byte>, rs: seq<Record>,
                     after: seq<Byte>, table: seq<Byte>)
    requires |signature| == 4 && |common| == 28 && |flags| == 4 && localApic < 0x1_0000_0000
    requires AllComplete(rs) && 44 + |EncodeAll(rs)| < 0x1_0000_0000
    requires table == TableOf(signature, common, localApic, flags, rs) + after
    ensures |table| == 44 + |EncodeAll(rs)| + |after|
    ensures Word32(table, 4) == 44 + |EncodeAll(rs)| && Word32(table, 36) == localApic
    ensures table[44..44 + |EncodeAll(rs)|] == EncodeAll(rs)
  {
    hide Encode32, Word32, EncodeAll, AllComplete;
    assert table[4..8] == Encode32(44 + |EncodeAll(rs)|);
    assert table[36..40] == Encode32(localApic);
    Written32(table, 4, 44 + |EncodeAll(rs)|);
    Written32(table, 36, localApic);
  }

  /** What the firmware wrote is what the kernel finds: both addresses, every identifier, and the end of the table. */
  lemma FirmwareTableIsParsed(signature: seq<Byte>, common: seq<Byte>, localApic: nat, flags: seq<Byte>, es: seq<Entry>,
                              after: seq<Byte>, table: seq<Byte>, before: nat)
    requires |signature| == 4 && |common| == 28 && |flags| == 4 && localApic < 0x1_0000_0000 && |after| >= 8
    requires AllOk(es) && AllComplete(RecordsOf(es)) && 44 + |EncodeAll(RecordsOf(es))| < 0x1_0000_0000
    requires table == TableOf(signature, common, localApic, flags, RecordsOf(es)) + after
    ensures |table| >= 44
    ensures var end := Word32(table, 4);
      && end == 44 + |EncodeAll(RecordsOf(es))| && end + 8 <= |table| && Advances(table, 44, end)
      && Stop(table, 44, end) == end && Word32(table, 36) == localApic && AllComplete(Seen(table, 44, end))
      && LastIoApic(Seen(table, 44, end), before) == LastAddress(es, before)
      && LocalApicIds(Seen(table, 44, end)) == Identifiers(es)
  {
    hide Encode32, Word32, EncodeAll, AllComplete, TableOf, Seen, Advances, Stop, LastIoApic, LocalApicIds, RecordsOf, WellFormed;
    var rs := RecordsOf(es);
    HeaderIsRead(signature, common, localApic, flags, rs, after, table);
    EntriesAreRead(es, before);
    LaidOutTableIsParsed(table, rs, before);
    LaidOutRecordsAreReadBack(table, 44, Word32(table, 4), rs);
    StopIsEnd(table, Word32(table, 4));
  }
}
