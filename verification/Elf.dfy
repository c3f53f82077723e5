/** Zeroing the init/fini array sizes in the dynamic table of a 32-bit little-endian ELF image, in place. */
module Elf {
  import opened Bytes

  const PROGRAM_HEADERS_OFFSET_FIELD: nat := 0x1C
  const PROGRAM_HEADER_SIZE_FIELD: nat := 0x2A
  const PROGRAM_HEADER_COUNT_FIELD: nat := 0x2C
  const DYNAMIC_SEGMENT_TYPE: nat := 2
  const DYNAMIC_END_TAG: nat := 0
  const INIT_ARRAY_SIZE_TAG: nat := 27
  const FINI_ARRAY_SIZE_TAG: nat := 28

  datatype Name = InitArraySize | FiniArraySize

  /** The exceptions of the script, in the order in which it can raise them. */
  datatype Error = NotElf | IndexError | StructError | NoDynamic

  datatype Result<+T> = Ok(value: T) | Err(error: Error)

  function Le16At(s: bytes, i: nat): nat
    requires i + 2 <= |s|
  {
    s[i] + 0x100 * s[i + 1] as int
  }

  /** Tags are read as signed words; those compared here have the same value unsigned. */
  function Le32At(s: bytes, i: nat): nat
    requires i + 4 <= |s|
  {
    s[i] + 0x100 * s[i + 1] as int + 0x1_0000 * s[i + 2] as int + 0x100_0000 * s[i + 3] as int
  }

  // ---------- Finding the dynamic table ----------

  /** The scan over program headers, from the one at `header` on. */
  function Scan(elf: bytes, header: nat, size: nat, count: nat): Result<nat>
    decreases count
  {
    if count == 0 then Err(NoDynamic)
    else if header + 8 > |elf| then Err(StructError)
    else if Le32At(elf, header) == DYNAMIC_SEGMENT_TYPE then Ok(Le32At(elf, header + 4))
    else Scan(elf, header + size, size, count - 1)
  }

  /** Where header `i` of the table stands. */
  function HeaderAt(offset: nat, size: nat, i: nat): nat {
    offset + i * size
  }

  lemma NextHeader(offset: nat, size: nat, i: nat)
    ensures HeaderAt(offset, size, 0) == offset && HeaderAt(offset, size, i + 1) == HeaderAt(offset, size, i) + size
  {
  }

  /** Header `i` of the table can be read, and is not that of a dynamic segment. */
  predicate Skipped(elf: bytes, offset: nat, size: nat, i: nat) {
    HeaderAt(offset, size, i) + 8 <= |elf| && Le32At(elf, HeaderAt(offset, size, i)) != DYNAMIC_SEGMENT_TYPE
  }

  /** Header `i` can be read, is that of a dynamic segment, and tells offset `v`. */
  predicate Tells(elf: bytes, offset: nat, size: nat, i: nat, v: nat) {
    && HeaderAt(offset, size, i) + 8 <= |elf|
    && Le32At(elf, HeaderAt(offset, size, i)) == DYNAMIC_SEGMENT_TYPE
    && Le32At(elf, HeaderAt(offset, size, i) + 4) == v
  }

  ghost predicate AllSkipped(elf: bytes, offset: nat, size: nat, n: nat) {
    forall i: nat :: i < n ==> Skipped(elf, offset, size, i)
  }

  /** The first header that is not skipped, of `count`, tells the offset; it may lie outside the image, or not exist. */
  ghost predicate Finds(elf: bytes, offset: nat, size: nat, count: nat, r: Result<nat>) {
    match r
    case Ok(v) => exists i: nat :: i < count && AllSkipped(elf, offset, size, i) && Tells(elf, offset, size, i, v)
    case Err(NoDynamic) => AllSkipped(elf, offset, size, count)
    case Err(StructError) =>
      exists i: nat :: i < count && AllSkipped(elf, offset, size, i) && HeaderAt(offset, size, i) + 8 > |elf|
    case Err(_) => false
  }

  lemma {:induction false} ScanFinds(elf: bytes, offset: nat, size: nat, i: nat, count: nat)
    requires i <= count && AllSkipped(elf, offset, size, i)
    ensures Finds(elf, offset, size, count, Scan(elf, HeaderAt(offset, size, i), size, count - i))
    decreases count - i
  {
    hide Le32At;
    NextHeader(offset, size, i);
    if i < count && Skipped(elf, offset, size, i) {
      ScanFinds(elf, offset, size, i + 1, count);
    }
  }

  /** The header at which the scan stops with `r`. */
  lemma StopOf(elf: bytes, offset: nat, size: nat, count: nat, r: Result<nat>) returns (i: nat)
    requires Finds(elf, offset, size, count, r)
    ensures i <= count && AllSkipped(elf, offset, size, i) && (i < count ==> !Skipped(elf, offset, size, i))
    ensures match r
      case Ok(v) => i < count && Tells(elf, offset, size, i, v)
      case Err(e) => if i == count then e == NoDynamic else e == StructError && HeaderAt(offset, size, i) + 8 > |elf|
  {
    hide Le32At;
    if r.Ok? {
      i :| i < count && AllSkipped(elf, offset, size, i) && Tells(elf, offset, size, i, r.value);
    } else if r.error == NoDynamic {
      i := count;
    } else {
      i :| i < count && AllSkipped(elf, offset, size, i) && HeaderAt(offset, size, i) + 8 > |elf|;
    }
  }

  lemma FindsOne(elf: bytes, offset: nat, size: nat, count: nat, a: Result<nat>, b: Result<nat>)
    requires Finds(elf, offset, size, count, a) && Finds(elf, offset, size, count, b)
    ensures a == b
  {
    hide Finds, Skipped;
    var i := StopOf(elf, offset, size, count, a);
    var j := StopOf(elf, offset, size, count, b);
    assert i == j;
  }

  /** What the scan finds, by its three outcomes and not by its course. */
  lemma ScanExactly(elf: bytes, offset: nat, size: nat, count: nat, r: Result<nat>)
    ensures Scan(elf, offset, size, count) == r <==> Finds(elf, offset, size, count, r)
  {
    hide Finds;
    ScanFinds(elf, offset, size, 0, count);
    if Finds(elf, offset, size, count, r) {
      FindsOne(elf, offset, size, count, Scan(elf, offset, size, count), r);
    }
  }

  function HeaderTable(elf: bytes): (nat, nat, nat)
    requires |elf| >= 0x2E
  {
    (Le32At(elf, PROGRAM_HEADERS_OFFSET_FIELD), Le16At(elf, PROGRAM_HEADER_SIZE_FIELD), Le16At(elf, PROGRAM_HEADER_COUNT_FIELD))
  }

  function Dynamic(elf: bytes): Result<nat> {
    if |elf| < 0x2E then Err(StructError)
    else
      var (offset, size, count) := HeaderTable(elf);
      Scan(elf, offset, size, count)
  }

  /** `r` is the offset told by the first dynamic segment's header, or why there is none to be had. */
  ghost predicate FindsDynamic(elf: bytes, r: Result<nat>) {
    if |elf| < 0x2E then r == Err(StructError)
    else
      var (offset, size, count) := HeaderTable(elf);
      Finds(elf, offset, size, count, r)
  }

  lemma DynamicExactly(elf: bytes, r: Result<nat>)
    ensures Dynamic(elf) == r <==> FindsDynamic(elf, r)
  {
    hide Scan, Finds, HeaderTable;
    if |elf| >= 0x2E {
      var (offset, size, count) := HeaderTable(elf);
      ScanExactly(elf, offset, size, count, r);
    }
  }

  method FindDynamicOffset(elf: array<byte>) returns (r: Result<nat>)
    ensures r == Dynamic(elf[..])
  {
    if elf.Length < 0x2E {
      return Err(StructError);
    }
    hide Le32At, HeaderAt, HeaderTable;
    var (offset, size, count) := HeaderTable(elf[..]);
    NextHeader(offset, size, 0);
    for index := 0 to count
      invariant Scan(elf[..], offset, size, count) == Scan(elf[..], HeaderAt(offset, size, index), size, count - index)
    {
      var header := HeaderAt(offset, size, index);
      NextHeader(offset, size, index);
      if header + 8 > elf.Length {
        return Err(StructError);
      }
      if Le32At(elf[..], header) == DYNAMIC_SEGMENT_TYPE {
        return Ok(Le32At(elf[..], header + 4));
      }
    }
    r := Err(NoDynamic);
  }

  // ---------- Patching the table ----------

  function Zeroed(elf: bytes, i: nat): (r: bytes)
    requires i + 4 <= |elf|
    ensures |r| == |elf|
    ensures forall k :: 0 <= k < |elf| ==> r[k] == if i <= k < i + 4 then 0 else elf[k]
  {
    elf[i := 0][i + 1 := 0][i + 2 := 0][i + 3 := 0]
  }

  function NameOf(tag: nat): Name {
    if tag == INIT_ARRAY_SIZE_TAG then InitArraySize else FiniArraySize
  }

  predicate IsArrayTag(tag: nat) {
    tag == INIT_ARRAY_SIZE_TAG || tag == FINI_ARRAY_SIZE_TAG
  }

  /** An array size entry that still has a size. */
  predicate Pending(elf: bytes, entry: nat)
    requires entry + 8 <= |elf|
  {
    IsArrayTag(Le32At(elf, entry)) && Le32At(elf, entry + 4) != 0
  }

  datatype Patched = Patched(elf: bytes, changed: seq<Name>)

  /** The loop from `entry` on; running off the image raises. */
  function Patch(elf: bytes, entry: nat): Result<Patched>
    decreases |elf| - entry
  {
    if entry + 8 > |elf| then Err(StructError)
    else if Le32At(elf, entry) == DYNAMIC_END_TAG then Ok(Patched(elf, []))
    else if Pending(elf, entry) then Named(NameOf(Le32At(elf, entry)), Patch(Zeroed(elf, entry + 4), entry + 8))
    else Patch(elf, entry + 8)
  }

  function Named(name: Name, r: Result<Patched>): Result<Patched> {
    match r
    case Ok(p) => Ok(p.(changed := [name] + p.changed))
    case Err(e) => Err(e)
  }

  /** A table without a terminator ends in a struct.error at the end of the image. */
  lemma {:induction false} PatchErrors(elf: bytes, entry: nat)
    ensures Patch(elf, entry).Err? ==> Patch(elf, entry).error == StructError
    decreases |elf| - entry
  {
    hide Le32At, Zeroed;
    if entry + 8 <= |elf| {
      PatchErrors(if Pending(elf, entry) then Zeroed(elf, entry + 4) else elf, entry + 8);
    }
  }

  const MAGIC: bytes := [0x7F, 0x45, 0x4C, 0x46]

  /** What the script does with a file's contents: the new contents and the names returned. */
  function PatchImage(elf: bytes): Result<Patched> {
    if |elf| < 4 || elf[..4] != MAGIC then Err(NotElf)
    else if |elf| < 5 then Err(IndexError)
    else if elf[4] != 1 then Err(NotElf)
    else if |elf| < 6 then Err(IndexError)
    else if elf[5] != 1 then Err(NotElf)
    else
      match Dynamic(elf)
      case Err(e) => Err(e)
      case Ok(entry) => Patch(elf, entry)
  }

  class File {
    var contents: bytes

    constructor (contents: bytes)
      ensures this.contents == contents
    {
      this.contents := contents;
    }
  }

  /** An exception leaves the file as it was; so does finding nothing to change. */
  method PatchLibrary(file: File) returns (r: Result<seq<Name>>)
    modifies file
    ensures match PatchImage(old(file.contents))
      case Err(e) => r == Err(e) && file.contents == old(file.contents)
      case Ok(p) => r == Ok(p.changed) && file.contents == (if p.changed != [] then p.elf else old(file.contents))
  {
    var image := file.contents;
    var elf := new byte[|image|](i requires 0 <= i < |image| => image[i]);
    assert elf[..] == image;
    if elf.Length < 4 || elf[..4] != MAGIC {
      return Err(NotElf);
    }
    if elf.Length < 5 {
      return Err(IndexError);
    }
    if elf[4] != 1 {
      return Err(NotElf);
    }
    if elf.Length < 6 {
      return Err(IndexError);
    }
    if elf[5] != 1 {
      return Err(NotElf);
    }
    var dynamic := FindDynamicOffset(elf);
    if dynamic.Err? {
      return Err(dynamic.error);
    }
    var changed := PatchTable(elf, dynamic.value);
    if changed.Err? {
      return Err(changed.error);
    }
    if changed.value != [] {
      file.contents := elf[..];
    }
    r := changed;
  }

  /** The loop over the dynamic table, overwriting size words in place. */
  method PatchTable(elf: array<byte>, start: nat) returns (r: Result<seq<Name>>)
    modifies elf
    ensures match Patch(old(elf[..]), start)
      case Err(e) => r == Err(e)
      case Ok(p) => r == Ok(p.changed) && elf[..] == p.elf
  {
    hide Le32At;
    var entry, changed: seq<Name> := start, [];
    ghost var all := Patch(elf[..], start);
    NoNames(all);
    while true
      invariant all == AllNamed(changed, Patch(elf[..], entry))
      decreases elf.Length - entry
    {
      if entry + 8 > elf.Length {
        return Err(StructError);
      }
      var tag, value := Le32At(elf[..], entry), Le32At(elf[..], entry + 4);
      if tag == DYNAMIC_END_TAG {
        assert changed + [] == changed;
        break;
      }
      if IsArrayTag(tag) && value != 0 {
        ghost var before := elf[..];
        elf[entry + 4], elf[entry + 5], elf[entry + 6], elf[entry + 7] := 0, 0, 0, 0;
        assert elf[..] == Zeroed(before, entry + 4);
        NamedLast(changed, NameOf(tag), Patch(elf[..], entry + 8));
        changed := changed + [NameOf(tag)];
      }
      entry := entry + 8;
    }
    r := Ok(changed);
  }

  ghost function AllNamed(names: seq<Name>, r: Result<Patched>): Result<Patched> {
    match r
    case Ok(p) => Ok(p.(changed := names + p.changed))
    case Err(e) => Err(e)
  }

  lemma NoNames(r: Result<Patched>)
    ensures AllNamed([], r) == r
  {
    if r.Ok? {
      assert [] + r.value.changed == r.value.changed;
    }
  }

  lemma NamedLast(names: seq<Name>, name: Name, r: Result<Patched>)
    ensures AllNamed(names, Named(name, r)) == AllNamed(names + [name], r)
  {
    if r.Ok? {
      assert names + ([name] + r.value.changed) == names + [name] + r.value.changed;
    }
  }

  // ---------- What patching does to the image ----------

  /** Where the walk from `entry` meets the terminator, if it does. */
  function End(elf: bytes, entry: nat): (r: Option<nat>)
    ensures r.Some? ==> entry <= r.value && r.value + 8 <= |elf|
    decreases |elf| - entry
  {
    if entry + 8 > |elf| then None
    else if Le32At(elf, entry) == DYNAMIC_END_TAG then Some(entry)
    else End(elf, entry + 8)
  }

  /** Octet `k` belongs to the size word of an init or fini array entry of the table at `start`, before its end. */
  predicate IsArraySize(elf: bytes, start: nat, end: nat, k: nat)
    requires end + 8 <= |elf|
  {
    start <= k < end && (k - start) % 8 >= 4 && IsArrayTag(Le32At(elf, k - (k - start) % 8))
  }

  lemma SameWord(a: bytes, b: bytes, i: nat)
    requires i + 4 <= |a| && |a| == |b| && (forall k :: i <= k < i + 4 ==> a[k] == b[k])
    ensures Le32At(a, i) == Le32At(b, i)
  {
  }

  /** From `entry` on, the tags and the end of the table do not depend on anything before `entry`. */
  lemma {:induction false} EndIsLocal(a: bytes, b: bytes, entry: nat)
    requires |a| == |b| && (forall k :: entry <= k < |a| ==> a[k] == b[k])
    ensures End(a, entry) == End(b, entry)
    decreases |a| - entry
  {
    hide Le32At;
    if entry + 8 <= |a| {
      SameWord(a, b, entry);
      EndIsLocal(a, b, entry + 8);
    }
  }

  /** Every octet after patching: zero in the size words of array entries before the end, unchanged elsewhere. */
  ghost predicate IsPatched(before: bytes, after: bytes, entry: nat, end: nat)
    requires end + 8 <= |before|
  {
    |after| == |before|
    && forall k :: 0 <= k < |before| ==> after[k] == if IsArraySize(before, entry, end, k) then 0 else before[k]
  }

  lemma ZeroWord(elf: bytes, i: nat)
    requires i + 4 <= |elf| && Le32At(elf, i) == 0
    ensures elf[i] == 0 && elf[i + 1] == 0 && elf[i + 2] == 0 && elf[i + 3] == 0
  {
  }

  /** `next` is `elf` with the size of an array entry at `entry` zeroed. */
  ghost predicate EntryDone(elf: bytes, next: bytes, entry: nat)
    requires entry + 8 <= |elf|
  {
    |next| == |elf|
    && forall k :: 0 <= k < |elf| ==>
      next[k] == if entry + 4 <= k < entry + 8 && IsArrayTag(Le32At(elf, entry)) then 0 else elf[k]
  }

  lemma LaterOctet(elf: bytes, next: bytes, entry: nat, end: nat, k: nat)
    requires end + 8 <= |elf| && entry + 8 <= |elf| && EntryDone(elf, next, entry) && entry + 8 <= k < |elf|
    ensures IsArraySize(next, entry + 8, end, k) == IsArraySize(elf, entry, end, k)
  {
  }

  lemma PatchedBefore(elf: bytes, next: bytes, after: bytes, entry: nat, end: nat)
    requires end + 8 <= |elf| && entry + 8 <= end && EntryDone(elf, next, entry)
    requires IsPatched(next, after, entry + 8, end)
    ensures IsPatched(elf, after, entry, end)
  {
    hide Le32At;
    forall k | 0 <= k < |elf|
      ensures after[k] == if IsArraySize(elf, entry, end, k) then 0 else elf[k]
    {
      if k >= entry + 8 {
        LaterOctet(elf, next, entry, end, k);
      } else if k >= entry {
        assert (k - entry) % 8 == k - entry;
      }
    }
  }

  /** The loop ends normally exactly when the table has a terminator, and then this is what it leaves. */
  lemma {:induction false} PatchExactly(elf: bytes, entry: nat)
    ensures match Patch(elf, entry)
      case Err(e) => e == StructError && End(elf, entry) == None
      case Ok(p) => End(elf, entry).Some? && End(elf, entry).value + 8 <= |elf|
                    && IsPatched(elf, p.elf, entry, End(elf, entry).value)
    decreases |elf| - entry
  {
    hide IsPatched, Le32At;
    if entry + 8 <= |elf| {
      if Le32At(elf, entry) == DYNAMIC_END_TAG {
        NothingPatched(elf, entry);
      } else {
        var next := if Pending(elf, entry) then Zeroed(elf, entry + 4) else elf;
        assert EntryDone(elf, next, entry) by {
          if Le32At(elf, entry + 4) == 0 {
            ZeroWord(elf, entry + 4);
          }
        }
        EndIsLocal(next, elf, entry + 8);
        PatchExactly(next, entry + 8);
        var r := Patch(next, entry + 8);
        if r.Ok? {
          PatchedBefore(elf, next, r.value.elf, entry, End(elf, entry).value);
        }
      }
    }
  }

  lemma NothingPatched(elf: bytes, end: nat)
    requires end + 8 <= |elf|
    ensures IsPatched(elf, elf, end, end)
  {
  }

  lemma NonZeroWord(elf: bytes, i: nat) returns (k: nat)
    requires i + 4 <= |elf| && Le32At(elf, i) != 0
    ensures i <= k < i + 4 && elf[k] != 0
  {
    k := if elf[i] != 0 then i else if elf[i + 1] != 0 then i + 1 else if elf[i + 2] != 0 then i + 2 else i + 3;
  }

  /** Names are returned exactly when something was changed. */
  lemma {:induction false} NamesMeanChanges(elf: bytes, entry: nat)
    requires Patch(elf, entry).Ok?
    ensures Patch(elf, entry).value.changed == [] <==> Patch(elf, entry).value.elf == elf
    decreases |elf| - entry
  {
    hide Le32At;
    if Le32At(elf, entry) != DYNAMIC_END_TAG {
      if Pending(elf, entry) {
        PatchExactly(elf, entry);
        var k := NonZeroWord(elf, entry + 4);
        assert IsArraySize(elf, entry, End(elf, entry).value, k);
      } else {
        NamesMeanChanges(elf, entry + 8);
      }
    }
  }

  /** The array entries of the table that still have a size, in order. */
  function PendingNames(elf: bytes, entry: nat): seq<Name>
    decreases |elf| - entry
  {
    if entry + 8 > |elf| || Le32At(elf, entry) == DYNAMIC_END_TAG then []
    else (if Pending(elf, entry) then [NameOf(Le32At(elf, entry))] else []) + PendingNames(elf, entry + 8)
  }

  lemma {:induction false} NamesAreLocal(a: bytes, b: bytes, entry: nat)
    requires |a| == |b| && (forall k :: entry <= k < |a| ==> a[k] == b[k])
    ensures PendingNames(a, entry) == PendingNames(b, entry)
    decreases |a| - entry
  {
    hide Le32At;
    if entry + 8 <= |a| {
      SameWord(a, b, entry);
      SameWord(a, b, entry + 4);
      NamesAreLocal(a, b, entry + 8);
    }
  }

  /** The names returned are those of the entries that had a size in the image before patching, in table order. */
  lemma {:induction false} NamesExactly(elf: bytes, entry: nat)
    requires Patch(elf, entry).Ok?
    ensures Patch(elf, entry).value.changed == PendingNames(elf, entry)
    decreases |elf| - entry
  {
    hide Le32At;
    if Le32At(elf, entry) != DYNAMIC_END_TAG {
      var next := if Pending(elf, entry) then Zeroed(elf, entry + 4) else elf;
      NamesAreLocal(next, elf, entry + 8);
      NamesExactly(next, entry + 8);
    }
  }

  // ---------- The same by the octets ----------

  /** A little-endian word below 256 by its octets. */
  lemma WordIs(elf: bytes, i: nat, v: byte)
    requires i + 4 <= |elf|
    ensures Le32At(elf, i) == v <==> elf[i..i + 4] == [v, 0, 0, 0]
  {
    assert elf[i..i + 4] == [elf[i], elf[i + 1], elf[i + 2], elf[i + 3]];
  }

  /** Where the program headers are, how large and how many: a word and two half words, low octet first. */
  lemma HeaderFields(elf: bytes)
    requires |elf| >= 0x2E
    ensures HeaderTable(elf)
         == (elf[0x1C] + 0x100 * elf[0x1D] as int + 0x1_0000 * elf[0x1E] as int + 0x100_0000 * elf[0x1F] as int,
             elf[0x2A] + 0x100 * elf[0x2B] as int, elf[0x2C] + 0x100 * elf[0x2D] as int)
  {
  }

  /** A header that tells the offset: all eight octets are there, type 2, and the offset low octet first. */
  lemma HeaderOctets(elf: bytes, offset: nat, size: nat, i: nat, v: nat)
    ensures var at := offset + i * size;
      && (Tells(elf, offset, size, i, v) <==>
            && at + 8 <= |elf| && elf[at..at + 4] == [2, 0, 0, 0]
            && v == elf[at + 4] + 0x100 * elf[at + 5] as int + 0x1_0000 * elf[at + 6] as int + 0x100_0000 * elf[at + 7] as int)
      && (Skipped(elf, offset, size, i) <==> at + 8 <= |elf| && elf[at..at + 4] != [2, 0, 0, 0])
  {
    var at := offset + i * size;
    if at + 8 <= |elf| {
      WordIs(elf, at, 2);
    }
  }

  /** Which files are turned away before any header is looked at, and with which exception. */
  lemma TurnedAway(elf: bytes)
    ensures var magic := |elf| >= 4 && elf[..4] == [0x7F, 0x45, 0x4C, 0x46];
      && (PatchImage(elf) == Err(NotElf) <==>
            !magic || (|elf| >= 5 && elf[4] != 1) || (|elf| >= 6 && elf[5] != 1))
      && (PatchImage(elf) == Err(IndexError) <==> magic && (|elf| == 4 || (|elf| == 5 && elf[4] == 1)))
      && (Accepted(elf) <==> magic && |elf| >= 6 && elf[4] == 1 && elf[5] == 1)
  {
    hide Patch, Dynamic;
    if Accepted(elf) && Dynamic(elf).Ok? {
      PatchExactly(elf, Dynamic(elf).value);
    }
    if Accepted(elf) {
      DynamicErrors(elf);
    }
  }

  lemma DynamicErrors(elf: bytes)
    ensures Dynamic(elf).Err? ==> Dynamic(elf).error == NoDynamic || Dynamic(elf).error == StructError
  {
    hide Scan, Finds;
    DynamicExactly(elf, Dynamic(elf));
    if |elf| >= 0x2E && Dynamic(elf).Err? {
      var (offset, size, count) := HeaderTable(elf);
      FindsWhat(elf, offset, size, count, Dynamic(elf));
    }
  }

  lemma FindsWhat(elf: bytes, offset: nat, size: nat, count: nat, r: Result<nat>)
    requires Finds(elf, offset, size, count, r) && r.Err?
    ensures r.error == NoDynamic || r.error == StructError
  {
    hide Le32At;
  }

  /** An entry of the table that begins at `start`, with tag 0. */
  predicate Terminates(elf: bytes, start: nat, e: nat) {
    start <= e && (e - start) % 8 == 0 && e + 8 <= |elf| && elf[e..e + 4] == [0, 0, 0, 0]
  }

  /** The table that begins at `start` has its first such entry at `end`. */
  ghost predicate EndsAt(elf: bytes, start: nat, end: nat) {
    Terminates(elf, start, end) && forall e: nat :: start <= e < end ==> !Terminates(elf, start, e)
  }

  lemma {:induction false} EndExactly(elf: bytes, entry: nat, end: nat)
    ensures EndsAt(elf, entry, end) <==> End(elf, entry) == Some(end)
    decreases |elf| - entry
  {
    hide Le32At;
    if entry + 8 <= |elf| {
      WordIs(elf, entry, 0);
      if Le32At(elf, entry) != DYNAMIC_END_TAG {
        EndExactly(elf, entry + 8, end);
        EndsLater(elf, entry, end);
      } else if EndsAt(elf, entry, end) {
        assert Terminates(elf, entry, entry);
      }
    }
  }

  lemma NextTerminates(elf: bytes, entry: nat, e: nat)
    requires e != entry
    ensures Terminates(elf, entry, e) <==> Terminates(elf, entry + 8, e)
  {
    if e >= entry + 8 {
      assert (e - entry - 8) % 8 == (e - entry) % 8;
    }
  }

  lemma EndsLater(elf: bytes, entry: nat, end: nat)
    requires !Terminates(elf, entry, entry)
    ensures EndsAt(elf, entry, end) <==> EndsAt(elf, entry + 8, end)
  {
    hide Terminates;
    var next := entry + 8;
    NoneBefore(elf, next);
    if EndsAt(elf, entry, end) {
      NextTerminates(elf, entry, end);
      forall e: nat | next <= e < end
        ensures !Terminates(elf, next, e)
      {
        NextTerminates(elf, entry, e);
      }
    }
    if EndsAt(elf, next, end) {
      NextTerminates(elf, entry, end);
      forall e: nat | entry <= e < end
        ensures !Terminates(elf, entry, e)
      {
        if e != entry {
          NextTerminates(elf, entry, e);
        }
      }
    }
  }

  lemma NoneBefore(elf: bytes, start: nat)
    ensures forall e: nat :: e < start ==> !Terminates(elf, start, e)
  {
  }

  /** Octet `k` is in the second word of an entry with tag 27 or 28. */
  predicate SizeOctet(elf: bytes, start: nat, end: nat, k: nat)
    requires end + 8 <= |elf|
  {
    start <= k < end && (k - start) % 8 >= 4
    && (var e := k - (k - start) % 8; elf[e..e + 4] == [27, 0, 0, 0] || elf[e..e + 4] == [28, 0, 0, 0])
  }

  lemma SizeOctetIs(elf: bytes, start: nat, end: nat, k: nat)
    requires end + 8 <= |elf|
    ensures SizeOctet(elf, start, end, k) <==> IsArraySize(elf, start, end, k)
  {
    hide Le32At;
    if start <= k < end && (k - start) % 8 >= 4 {
      var e := k - (k - start) % 8;
      WordIs(elf, e, 27);
      WordIs(elf, e, 28);
    }
  }

  /** The names for a table by its octets: for tags 27 and 28, where the second word is not zero. */
  function NamesAt(elf: bytes, entry: nat): seq<Name>
    decreases |elf| - entry
  {
    if entry + 8 > |elf| || elf[entry..entry + 4] == [0, 0, 0, 0] then []
    else
      (if elf[entry + 4..entry + 8] == [0, 0, 0, 0] then []
       else if elf[entry..entry + 4] == [27, 0, 0, 0] then [InitArraySize]
       else if elf[entry..entry + 4] == [28, 0, 0, 0] then [FiniArraySize]
       else [])
      + NamesAt(elf, entry + 8)
  }

  lemma {:induction false} NamesAtIs(elf: bytes, entry: nat)
    ensures NamesAt(elf, entry) == PendingNames(elf, entry)
    decreases |elf| - entry
  {
    hide Le32At;
    if entry + 8 <= |elf| {
      WordIs(elf, entry, 0);
      WordIs(elf, entry, 27);
      WordIs(elf, entry, 28);
      WordIs(elf, entry + 4, 0);
      NamesAtIs(elf, entry + 8);
    }
  }

  /**
   What patching does, tag by tag and octet by octet: it succeeds if and only if the table has a terminator; then the
   second words of the entries before it with tag 27 (init) or 28 (fini) are zero, all other octets are kept, and the
   names are those of these entries whose second word was not zero.
   */
  lemma PatchOctets(elf: bytes, start: nat)
    ensures Patch(elf, start).Ok? <==> exists end: nat :: EndsAt(elf, start, end)
    ensures forall end: nat :: EndsAt(elf, start, end) ==>
      var p := Patch(elf, start).value;
      && p.changed == NamesAt(elf, start) && |p.elf| == |elf|
      && forall k :: 0 <= k < |elf| ==> p.elf[k] == if SizeOctet(elf, start, end, k) then 0 else elf[k]
  {
    hide Patch, EndsAt, SizeOctet, NamesAt, Le32At;
    PatchExactly(elf, start);
    if Patch(elf, start).Ok? {
      var last := End(elf, start).value;
      EndExactly(elf, start, last);
      NamesExactly(elf, start);
      NamesAtIs(elf, start);
    }
    forall end: nat | EndsAt(elf, start, end)
      ensures Patch(elf, start).Ok?
      ensures end + 8 <= |elf|
      ensures var p := Patch(elf, start).value;
        && p.changed == NamesAt(elf, start) && |p.elf| == |elf|
        && forall k :: 0 <= k < |elf| ==> p.elf[k] == if SizeOctet(elf, start, end, k) then 0 else elf[k]
    {
      EndExactly(elf, start, end);
      forall k | 0 <= k < |elf|
        ensures SizeOctet(elf, start, end, k) <==> IsArraySize(elf, start, end, k)
      {
        SizeOctetIs(elf, start, end, k);
      }
    }
  }

  // ---------- Patching twice ----------

  /** All sizes of array entries from `entry` to the end are zero. */
  ghost predicate Clean(elf: bytes, entry: nat, end: nat)
    requires end + 8 <= |elf|
  {
    forall k :: 0 <= k < |elf| && IsArraySize(elf, entry, end, k) ==> elf[k] == 0
  }

  lemma CleanEntry(elf: bytes, entry: nat, end: nat)
    requires end + 8 <= |elf| && entry + 8 <= end && Clean(elf, entry, end)
    ensures !Pending(elf, entry) && Clean(elf, entry + 8, end)
  {
    hide IsArraySize, Le32At;
    if IsArrayTag(Le32At(elf, entry)) {
      OwnSize(elf, entry, end);
      ZeroOctets(elf, entry + 4);
    }
    forall k | 0 <= k < |elf| && IsArraySize(elf, entry + 8, end, k)
      ensures elf[k] == 0
    {
      if k >= entry + 8 {
        LaterOctet(elf, elf, entry, end, k);
      } else {
        NotBefore(elf, entry + 8, end, k);
      }
    }
  }

  lemma OwnSize(elf: bytes, entry: nat, end: nat)
    requires end + 8 <= |elf| && entry + 8 <= end && IsArrayTag(Le32At(elf, entry))
    ensures forall k :: entry + 4 <= k < entry + 8 ==> IsArraySize(elf, entry, end, k)
  {
    hide Le32At;
    forall k | entry + 4 <= k < entry + 8
      ensures IsArraySize(elf, entry, end, k)
    {
      assert (k - entry) % 8 == k - entry;
    }
  }

  lemma ZeroOctets(elf: bytes, i: nat)
    requires i + 4 <= |elf| && forall k :: i <= k < i + 4 ==> elf[k] == 0
    ensures Le32At(elf, i) == 0
  {
  }

  lemma NotBefore(elf: bytes, start: nat, end: nat, k: nat)
    requires end + 8 <= |elf| && k < start
    ensures !IsArraySize(elf, start, end, k)
  {
  }

  lemma {:induction false} CleanStays(elf: bytes, entry: nat)
    requires End(elf, entry).Some? && End(elf, entry).value + 8 <= |elf| && Clean(elf, entry, End(elf, entry).value)
    ensures Patch(elf, entry) == Ok(Patched(elf, []))
    decreases |elf| - entry
  {
    hide Le32At, Clean;
    if Le32At(elf, entry) != DYNAMIC_END_TAG {
      CleanEntry(elf, entry, End(elf, entry).value);
      CleanStays(elf, entry + 8);
    }
  }

  /** The walk depends on tags alone. */
  lemma {:induction false} EndNeedsTags(a: bytes, b: bytes, start: nat, entry: nat)
    requires |a| == |b| && start <= entry && (entry - start) % 8 == 0
    requires forall k :: start <= k < |a| && (k - start) % 8 < 4 ==> a[k] == b[k]
    ensures End(a, entry) == End(b, entry)
    decreases |a| - entry
  {
    hide Le32At;
    if entry + 8 <= |a| {
      forall k | entry <= k < entry + 4
        ensures a[k] == b[k]
      {
        assert (k - start) % 8 == k - entry;
      }
      SameWord(a, b, entry);
      EndNeedsTags(a, b, start, entry + 8);
    }
  }

  lemma TagsKept(before: bytes, after: bytes, entry: nat, end: nat)
    requires end + 8 <= |before| && IsPatched(before, after, entry, end)
    ensures forall k :: entry <= k < |before| && (k - entry) % 8 < 4 ==> after[k] == before[k]
  {
  }

  lemma PatchedIsClean(before: bytes, after: bytes, entry: nat, end: nat)
    requires end + 8 <= |before| && IsPatched(before, after, entry, end)
    ensures Clean(after, entry, end)
  {
    hide Le32At;
    TagsKept(before, after, entry, end);
    forall k | 0 <= k < |after| && IsArraySize(after, entry, end, k)
      ensures after[k] == 0
    {
      var at := k - (k - entry) % 8;
      forall j | at <= j < at + 4
        ensures after[j] == before[j]
      {
        assert (at - entry) % 8 == 0;
        assert (j - entry) % 8 == j - at;
      }
      SameWord(before, after, at);
    }
  }

  /** Patching a table again, at the same place, changes nothing and names nothing. */
  lemma TableTwice(elf: bytes, entry: nat)
    requires Patch(elf, entry).Ok?
    ensures Patch(Patch(elf, entry).value.elf, entry) == Ok(Patched(Patch(elf, entry).value.elf, []))
  {
    hide Patch, IsPatched, Clean, IsArraySize;
    PatchExactly(elf, entry);
    var after, end := Patch(elf, entry).value.elf, End(elf, entry).value;
    TagsKept(elf, after, entry, end);
    assert |after| == |elf| by { SameSize(elf, after, entry, end); }
    EndNeedsTags(elf, after, entry, entry);
    PatchedIsClean(elf, after, entry, end);
    CleanStays(after, entry);
  }

  lemma SameSize(before: bytes, after: bytes, entry: nat, end: nat)
    requires end + 8 <= |before| && IsPatched(before, after, entry, end)
    ensures |after| == |before|
  {
  }

  /** The magic number and the class and byte order that the script insists on. */
  predicate Accepted(elf: bytes) {
    |elf| >= 6 && elf[..4] == MAGIC && elf[4] == 1 && elf[5] == 1
  }

  function TableEnd(elf: bytes): Option<nat> {
    match Dynamic(elf) case Ok(start) => End(elf, start) case Err(_) => None
  }

  /** The image with the sizes of the init and fini array entries of its dynamic table zeroed. */
  function Masked(elf: bytes): (r: bytes)
    ensures |r| == |elf|
  {
    match TableEnd(elf)
    case None => elf
    case Some(end) => seq(|elf|, k requires 0 <= k < |elf| => if IsArraySize(elf, Dynamic(elf).value, end, k) then 0 else elf[k])
  }

  /** There is nothing to do: the image is accepted, has a terminated dynamic table, and all its array sizes are zero. */
  ghost predicate Settled(elf: bytes) {
    Accepted(elf) && TableEnd(elf).Some? && Clean(elf, Dynamic(elf).value, TableEnd(elf).value)
  }

  lemma MaskedIs(elf: bytes, after: bytes)
    requires TableEnd(elf).Some? && IsPatched(elf, after, Dynamic(elf).value, TableEnd(elf).value)
    ensures after == Masked(elf)
  {
    hide IsArraySize;
  }

  /** Patching succeeds exactly on an accepted image with a terminated table, and then leaves it masked. */
  lemma ImageExactly(elf: bytes)
    ensures PatchImage(elf).Ok? <==> Accepted(elf) && TableEnd(elf).Some?
    ensures PatchImage(elf).Ok? ==> PatchImage(elf).value.elf == Masked(elf)
    ensures PatchImage(elf).Ok? ==> (PatchImage(elf).value.changed == [] <==> Masked(elf) == elf)
  {
    hide Dynamic, Patch, End, IsPatched, Masked;
    if Dynamic(elf).Ok? {
      var start := Dynamic(elf).value;
      PatchExactly(elf, start);
      if Patch(elf, start).Ok? {
        MaskedIs(elf, Patch(elf, start).value.elf);
        NamesMeanChanges(elf, start);
      }
    }
  }

  /** The images on which the script succeeds and changes nothing. */
  lemma UnchangedExactly(elf: bytes)
    ensures PatchImage(elf) == Ok(Patched(elf, [])) <==> Settled(elf)
  {
    hide Dynamic, Patch, End, IsPatched, Clean;
    ImageExactly(elf);
    if PatchImage(elf).Ok? {
      var start := Dynamic(elf).value;
      PatchExactly(elf, start);
      if PatchImage(elf).value.elf == elf {
        PatchedIsClean(elf, elf, start, End(elf, start).value);
      }
      if Settled(elf) {
        CleanStays(elf, start);
      }
    }
  }

  /** A second run changes nothing and names nothing if and only if there is nothing to do on the masked image. */
  lemma SecondRunExactly(elf: bytes)
    requires PatchImage(elf).Ok?
    ensures PatchImage(PatchImage(elf).value.elf) == Ok(Patched(PatchImage(elf).value.elf, [])) <==> Settled(Masked(elf))
  {
    hide PatchImage, Masked, Settled;
    ImageExactly(elf);
    UnchangedExactly(Masked(elf));
  }

  /** So it is whenever the masked image is still accepted and its headers still lead to the same table. */
  lemma SameTableSettles(elf: bytes)
    requires PatchImage(elf).Ok? && Accepted(Masked(elf)) && Dynamic(Masked(elf)) == Dynamic(elf)
    ensures Settled(Masked(elf))
  {
    hide Dynamic, Masked, Settled, Patch;
    ImageExactly(elf);
    TableTwice(elf, Dynamic(elf).value);
    UnchangedExactly(Masked(elf));
  }

  /** The octets from `from` to `to` lie outside the dynamic table. */
  predicate Apart(from: nat, to: nat, start: nat, end: nat) {
    to <= start || end <= from
  }

  /**
   The dynamic table overlaps neither the header fields read nor any program header. (Chapter 4 of the System V gABI
   lets no octet of a file belong to two sections; an overlap with the headers is as malformed.)
   */
  ghost predicate TableApart(elf: bytes) {
    |elf| >= 0x2E && Dynamic(elf).Ok?
    && match End(elf, Dynamic(elf).value)
       case None => false
       case Some(end) => HeadersApart(HeaderTable(elf), Dynamic(elf).value, end)
  }

  ghost predicate HeadersApart(headers: (nat, nat, nat), start: nat, end: nat) {
    Apart(0, 0x2E, start, end) && forall i: nat :: i < headers.2 ==> HeaderApart(headers.0, headers.1, i, start, end)
  }

  predicate HeaderApart(offset: nat, size: nat, i: nat, start: nat, end: nat) {
    Apart(HeaderAt(offset, size, i), HeaderAt(offset, size, i) + 8, start, end)
  }

  lemma ApartUnchanged(before: bytes, after: bytes, start: nat, end: nat, from: nat, to: nat)
    requires end + 8 <= |before| && IsPatched(before, after, start, end) && Apart(from, to, start, end)
    ensures forall k :: from <= k < to && k < |before| ==> after[k] == before[k]
  {
  }

  ghost predicate HeaderKept(a: bytes, b: bytes, offset: nat, size: nat, i: nat)
    requires |a| == |b|
  {
    forall k :: HeaderAt(offset, size, i) <= k < HeaderAt(offset, size, i) + 8 && k < |a| ==> a[k] == b[k]
  }

  lemma {:induction false} ScanUnchanged(a: bytes, b: bytes, offset: nat, i: nat, size: nat, count: nat)
    requires |a| == |b| && i <= count
    requires forall j: nat :: i <= j < count ==> HeaderKept(a, b, offset, size, j)
    ensures Scan(a, HeaderAt(offset, size, i), size, count - i) == Scan(b, HeaderAt(offset, size, i), size, count - i)
    decreases count - i
  {
    hide Le32At;
    var header := HeaderAt(offset, size, i);
    if i < count && header + 8 <= |a| {
      assert HeaderKept(a, b, offset, size, i);
      SameWord(a, b, header);
      SameWord(a, b, header + 4);
      NextHeader(offset, size, i);
      ScanUnchanged(a, b, offset, i + 1, size, count);
    }
  }

  lemma HeaderUnchanged(a: bytes, b: bytes)
    requires |a| == |b| && 0x2E <= |a| && (forall k :: 0 <= k < 0x2E ==> a[k] == b[k])
    ensures HeaderTable(a) == HeaderTable(b)
  {
  }

  lemma ApartSettles(elf: bytes)
    requires PatchImage(elf).Ok? && TableApart(elf)
    ensures Settled(Masked(elf))
  {
    hide Le32At, Patch, End, Scan, IsPatched, HeaderTable, Settled, Masked;
    var start := Dynamic(elf).value;
    var end, after := End(elf, start).value, Masked(elf);
    ImageExactly(elf);
    PatchExactly(elf, start);
    ApartUnchanged(elf, after, start, end, 0, 0x2E);
    assert elf[..4] == after[..4];
    HeaderUnchanged(elf, after);
    var (offset, size, count) := HeaderTable(elf);
    forall j: nat | j < count
      ensures HeaderKept(elf, after, offset, size, j)
    {
      assert HeaderApart(offset, size, j, start, end);
      ApartUnchanged(elf, after, start, end, HeaderAt(offset, size, j), HeaderAt(offset, size, j) + 8);
    }
    ScanUnchanged(elf, after, offset, 0, size, count);
    SameTableSettles(elf);
  }

  /** In particular when the table overlaps no header: a second run then finds it again and leaves everything as it is. */
  lemma SecondRunChangesNothing(elf: bytes)
    requires PatchImage(elf).Ok? && TableApart(elf)
    ensures PatchImage(PatchImage(elf).value.elf) == Ok(Patched(PatchImage(elf).value.elf, []))
  {
    hide PatchImage, Settled, Masked;
    ApartSettles(elf);
    SecondRunExactly(elf);
  }

  function Overlapping(i: nat): byte {
    if i == 0 then 0x7F else if i == 1 then 0x45 else if i == 2 then 0x4C else if i == 3 then 0x46
    else if i == 4 || i == 5 then 1       // 32-bit, little-endian
    else if i == 0x1C then 50             // one program header of 32 octets at 50
    else if i == 0x2A then 32 else if i == 0x2C then 1
    else if i == 46 then 27               // dynamic table at 46: an init array entry
    else if i == 50 then 2                // its size, and at once the type of the program header
    else if i == 54 then 46               // the offset of the dynamic segment
    else 0
  }

  lemma OverlappingWords() returns (elf: bytes)
    ensures |elf| == 70 && elf[..4] == MAGIC && elf[4] == 1 && elf[5] == 1
    ensures HeaderTable(elf) == (50, 32, 1)
    ensures Le32At(elf, 46) == INIT_ARRAY_SIZE_TAG && Le32At(elf, 50) == 2 && Le32At(elf, 54) == 46 && Le32At(elf, 62) == 0
  {
    elf := seq<byte>(70, i requires 0 <= i < 70 => Overlapping(i));
  }

  lemma ZeroedWords(elf: bytes) returns (next: bytes)
    requires |elf| == 70 && HeaderTable(elf) == (50, 32, 1)
    ensures next == Zeroed(elf, 50) && next[..4] == elf[..4] && next[4] == elf[4] && next[5] == elf[5]
    ensures HeaderTable(next) == (50, 32, 1) && Le32At(next, 50) == 0
    ensures Le32At(next, 54) == Le32At(elf, 54) && Le32At(next, 62) == Le32At(elf, 62)
  {
    next := Zeroed(elf, 50);
    HeaderUnchanged(next, elf);
    SameWord(next, elf, 54);
    SameWord(next, elf, 62);
  }

  /** Where they do overlap a second run can fail: here zeroing a size wipes out the type of the dynamic segment. */
  lemma OverlapCanBreakSecondRun() returns (elf: bytes)
    ensures PatchImage(elf).Ok? && PatchImage(elf).value.changed == [InitArraySize]
    ensures PatchImage(PatchImage(elf).value.elf) == Err(NoDynamic)
  {
    hide Le32At, HeaderTable, Zeroed;
    elf := OverlappingWords();
    var next := ZeroedWords(elf);
    assert Dynamic(elf) == Ok(46);
    assert Patch(next, 62) == Ok(Patched(next, []));
    assert Patch(next, 54) == Ok(Patched(next, []));
    var rest := Patch(next, 54);
    assert Pending(elf, 46) && Patch(elf, 46) == Named(InitArraySize, rest);
    assert [InitArraySize] + rest.value.changed == [InitArraySize];
    assert Scan(next, 82, 32, 0) == Err(NoDynamic);
  }
}
