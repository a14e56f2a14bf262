/** The bank/map index: the two-level pointer table of map banks.

    The bank table is a run of pointer words ending at the first word that is
    not a pointer. Each bank's own table of map pointers has no count either:
    its scan ends at the first non-pointer word, or right after the entry whose
    following offset is exactly the start of the next bank's table.
 */
module BankIndex {
  import opened Rom

  /** The scan of the bank table itself: pointers at `offset`, `offset + 4`, ...
      up to the first word that is not a pointer. Reading past the end of the
      image fails. */
  function PointerRun(b: seq<byte>, offset: nat): (r: Result<seq<int>>)
    ensures r.Ok? ==> forall k :: 0 <= k < |r.value| ==> r.value[k] > 0
    decreases |b| - offset
  {
    if offset + 4 > |b| then Err(ShortRead(offset))
    else if !IsPointer(b, offset) then Ok([])
    else Cons(ReadPointer(b, offset), PointerRun(b, offset + 4))
  }

  /** The scan of one bank's map table, starting at `offset`, where `next` is
      the start of the following bank's table (0 for the last bank). Each step
      reads a word, stops if it is not a pointer, keeps it, advances by 4 and
      stops if the new offset equals `next`. */
  function ScanTable(b: seq<byte>, offset: nat, next: int): (r: Result<seq<int>>)
    ensures r.Ok? ==> forall k :: 0 <= k < |r.value| ==> r.value[k] > 0
    decreases |b| - offset
  {
    if offset + 4 > |b| then Err(ShortRead(offset))
    else if !IsPointer(b, offset) then Ok([])
    else if offset + 4 == next then Ok([ReadPointer(b, offset)])
    else Cons(ReadPointer(b, offset), ScanTable(b, offset + 4, next))
  }

  /** The pointers resolved from the `n` words at `o`, `o + 4`, ... */
  function Entries(b: seq<byte>, o: nat, n: nat): (ps: seq<int>)
    requires o + 4 * n <= |b|
  {
    seq(n, k requires 0 <= k < n => ReadPointer(b, o + 4 * k))
  }

  /** The entries from `o` are the one at `o` followed by those from `o + 4`. */
  lemma EntriesCons(b: seq<byte>, o: nat, n: nat)
    requires o + 4 * (n + 1) <= |b|
    ensures Entries(b, o, n + 1) == [ReadPointer(b, o)] + Entries(b, o + 4, n)
  {
    var tail := Entries(b, o + 4, n);
    assert forall k :: 0 <= k < n ==> tail[k] == ReadPointer(b, o + 4 * (k + 1));
  }

  /** The `n` words at `o`, `o + 4`, ... all lie inside the image and are pointers. */
  ghost predicate ValidRun(b: seq<byte>, o: nat, n: nat)
  {
    forall k :: 0 <= k < n ==> o + 4 * k + 4 <= |b| && IsPointer(b, o + 4 * k)
  }

  /** The stop test of a scan from `o` does not fire before the scan reads its
      word number `n` (counting from 0): `next` is none of the offsets
      `o + 4`, ..., `o + 4 * (n - 1)`. */
  predicate NoBreak(o: nat, next: int, n: nat)
  {
    !(o + 4 <= next <= o + 4 * (n - 1) && (next - o) % 4 == 0)
  }

  /** Where the scan of a bank's map table should start its search for the
      following bank: the next bank pointer, or 0 for the last bank. */
  function NextStart(ps: seq<int>, i: nat): (next: int)
    requires i < |ps|
  {
    if i + 1 < |ps| then ps[i + 1] else 0
  }

  /** The map-table scan of every bank, in bank order; bank `i`'s scan is
      bounded by the start of bank `i + 1`'s table. */
  function BankScans(b: seq<byte>, ps: seq<int>): (scans: seq<Result<seq<int>>>)
    requires forall k :: 0 <= k < |ps| ==> ps[k] > 0
  {
    seq(|ps|, i requires 0 <= i < |ps| => ScanTable(b, ps[i], NextStart(ps, i)))
  }

  /** The results of a list of scans, taken in order; the first failure decides. */
  function Collect<T>(rs: seq<Result<T>>): (r: Result<seq<T>>)
  {
    if rs == [] then Ok([])
    else
      match rs[0]
      case Err(e) => Err(e)
      case Ok(v) => Cons(v, Collect(rs[1..]))
  }

  /** find_banks: the map-pointer list of every bank of the table at `start`. */
  function Banks(b: seq<byte>, start: nat): (r: Result<seq<seq<int>>>)
  {
    match PointerRun(b, start)
    case Err(e) => Err(e)
    case Ok(ps) => Collect(BankScans(b, ps))
  }

  // ---------------------------------------------------------------------------
  // What a scan returns

  /** A map-table scan returns the pointers read at `o`, `o + 4`, ..., all of
      them positive; it does not stop early; and it stops for one of two
      reasons: the next word is not a pointer, or the offset after the last
      entry is `next`. */
  lemma {:induction false} ScanTableResult(b: seq<byte>, o: nat, next: int)
    ensures ScanTable(b, o, next).Ok? ==>
      var ps := ScanTable(b, o, next).value;
      && o + 4 * |ps| <= |b|
      && ps == Entries(b, o, |ps|)
      && ValidRun(b, o, |ps|)
      && NoBreak(o, next, |ps|)
      && ((o + 4 * |ps| + 4 <= |b| && !IsPointer(b, o + 4 * |ps|))
          || (|ps| > 0 && o + 4 * |ps| == next))
    decreases |b| - o
  {
    if o + 4 <= |b| && IsPointer(b, o) && o + 4 != next {
      ScanTableResult(b, o + 4, next);
      var r := ScanTable(b, o + 4, next);
      if r.Ok? {
        var ps := r.value;
        assert ScanTable(b, o, next).value == [ReadPointer(b, o)] + ps;
        EntriesCons(b, o, |ps|);
        StepRun(b, o, next, |ps|, |ps|);
      }
    }
  }

  /** A failed map-table scan ran off the end of the image, at an offset
      aligned with `o`, after a run of pointers it did not stop in. */
  lemma {:induction false} ScanTableFailure(b: seq<byte>, o: nat, next: int)
    ensures ScanTable(b, o, next).Err? ==>
      var e := ScanTable(b, o, next).error;
      && e.ShortRead?
      && o <= e.offset && (e.offset - o) % 4 == 0
      && e.offset + 4 > |b|
      && ValidRun(b, o, (e.offset - o) / 4)
      && NoBreak(o, next, (e.offset - o) / 4 + 1)
    decreases |b| - o
  {
    if o + 4 <= |b| && IsPointer(b, o) && o + 4 != next {
      ScanTableFailure(b, o + 4, next);
      var r := ScanTable(b, o + 4, next);
      if r.Err? {
        assert ScanTable(b, o, next).error == r.error;
        StepRun(b, o, next, (r.error.offset - o - 4) / 4, (r.error.offset - o - 4) / 4 + 1);
      }
    }
  }

  lemma StepRun(b: seq<byte>, o: nat, next: int, n: nat, m: nat)
    requires o + 4 <= |b| && IsPointer(b, o) && o + 4 != next
    requires ValidRun(b, o + 4, n) && NoBreak(o + 4, next, m)
    ensures ValidRun(b, o, n + 1) && NoBreak(o, next, m + 1)
  {
    forall k | 0 < k < n + 1
      ensures o + 4 * k + 4 <= |b| && IsPointer(b, o + 4 * k)
    {
      assert o + 4 * k == (o + 4) + 4 * (k - 1);
    }
  }

  /** A run of `n + 1` pointers at `o` holds a run of `n` at `o + 4`. */
  lemma ShiftRun(b: seq<byte>, o: nat, n: nat)
    requires ValidRun(b, o, n + 1)
    ensures ValidRun(b, o + 4, n)
  {
    forall k | 0 <= k < n
      ensures (o + 4) + 4 * k + 4 <= |b| && IsPointer(b, (o + 4) + 4 * k)
    {
      assert (o + 4) + 4 * k == o + 4 * (k + 1);
    }
  }

  /** Conversely, a run of `n` pointers the scan does not stop in, followed by
      a stop at `o + 4 * n`, is exactly what the scan returns. */
  lemma {:induction false} ScanTableComplete(b: seq<byte>, o: nat, next: int, n: nat)
    requires o + 4 * n <= |b|
    requires ValidRun(b, o, n) && NoBreak(o, next, n)
    requires (o + 4 * n + 4 <= |b| && !IsPointer(b, o + 4 * n)) || (n > 0 && o + 4 * n == next)
    ensures ScanTable(b, o, next) == Ok(Entries(b, o, n))
    decreases n
  {
    if n == 0 {
      assert o + 4 * n == o;
      assert Entries(b, o, n) == [];
    } else {
      assert o + 4 <= |b| && IsPointer(b, o) by {
        assert o + 4 * 0 == o;
      }
      if o + 4 == next {
        assert n == 1;
        assert Entries(b, o, n) == [ReadPointer(b, o)];
      } else {
        assert ScanTable(b, o + 4, next) == Ok(Entries(b, o + 4, n - 1)) by {
          ShiftRun(b, o, n - 1);
          assert o + 4 * n == (o + 4) + 4 * (n - 1);
          ScanTableComplete(b, o + 4, next, n - 1);
        }
        assert ScanTable(b, o, next) == Cons(ReadPointer(b, o), ScanTable(b, o + 4, next));
        EntriesCons(b, o, n - 1);
      }
    }
  }

  /** The stop test is an equality checked after each step. When the next
      table starts at or before `o`, or at an offset not a multiple of 4 away,
      it never fires and the map-table scan reads like the bank-table scan.
      This is the case of the last bank, whose `next` is 0. */
  lemma {:induction false} ScanWithoutBound(b: seq<byte>, o: nat, next: int)
    requires next <= o || (next - o) % 4 != 0
    ensures ScanTable(b, o, next) == PointerRun(b, o)
    decreases |b| - o
  {
    if o + 4 <= |b| && IsPointer(b, o) {
      assert o + 4 != next;
      ScanWithoutBound(b, o + 4, next);
    }
  }

  /** When the next table starts `4 * m` bytes after `o`, the scan reads at
      most `m` entries; if that region lies inside the image, the scan cannot
      fail. */
  lemma {:induction false} ScanStopsAtNextTable(b: seq<byte>, o: nat, next: int)
    requires o < next && (next - o) % 4 == 0
    ensures ScanTable(b, o, next).Ok? ==> |ScanTable(b, o, next).value| <= (next - o) / 4
    ensures next <= |b| ==> ScanTable(b, o, next).Ok?
    decreases next - o
  {
    if o + 4 <= |b| && IsPointer(b, o) && o + 4 != next {
      ScanStopsAtNextTable(b, o + 4, next);
    }
  }

  /** The scan toward the next table reads nothing at or beyond `next`: two
      images that agree on the bytes from `o` up to `next` give the same scan. */
  lemma {:induction false} ScanReadsBeforeNext(b: seq<byte>, b': seq<byte>, o: nat, next: int)
    requires o < next && (next - o) % 4 == 0 && next <= |b| && next <= |b'|
    requires b[o..next] == b'[o..next]
    ensures ScanTable(b, o, next) == ScanTable(b', o, next)
    decreases next - o
  {
    assert ReadInt(b, o) == ReadInt(b', o) by {
      assert b[o..next][0] == b[o] && b'[o..next][0] == b'[o];
      assert b[o..next][1] == b[o + 1] && b'[o..next][1] == b'[o + 1];
      assert b[o..next][2] == b[o + 2] && b'[o..next][2] == b'[o + 2];
      assert b[o..next][3] == b[o + 3] && b'[o..next][3] == b'[o + 3];
    }
    if o + 4 < next {
      assert b[o + 4..next] == b[o..next][4..] && b'[o + 4..next] == b'[o..next][4..];
      ScanReadsBeforeNext(b, b', o + 4, next);
    }
  }

  /** The bank pointers are the maximal run of pointers at `start`, `start + 4`,
      ...: every entry is a positive resolved pointer, and the word after the
      run lies inside the image and is not a pointer. */
  lemma BankPointersMaximal(b: seq<byte>, start: nat)
    ensures PointerRun(b, start).Ok? ==>
      var ps := PointerRun(b, start).value;
      && start + 4 * |ps| + 4 <= |b|
      && ps == Entries(b, start, |ps|)
      && (forall k :: 0 <= k < |ps| ==> ps[k] > 0)
      && ValidRun(b, start, |ps|)
      && !IsPointer(b, start + 4 * |ps|)
  {
    ScanWithoutBound(b, start, 0);
    ScanTableResult(b, start, 0);
  }

  /** Collecting succeeds exactly when every result does, and then gives
      their values, one per result, in order. */
  lemma {:induction false} CollectShape<T>(rs: seq<Result<T>>)
    ensures Collect(rs).Ok? <==> forall k :: 0 <= k < |rs| ==> rs[k].Ok?
    ensures Collect(rs).Ok? ==>
      && |Collect(rs).value| == |rs|
      && forall k :: 0 <= k < |rs| ==> Ok(Collect(rs).value[k]) == rs[k]
  {
    if rs != [] {
      CollectShape(rs[1..]);
      if rs[0].Ok? && Collect(rs[1..]).Ok? {
        var all := Collect(rs).value;
        assert all == [rs[0].value] + Collect(rs[1..]).value;
        forall k | 0 < k < |rs|
          ensures Ok(all[k]) == rs[k]
        {
          assert rs[1..][k - 1] == rs[k];
        }
      }
      if !rs[0].Ok? {
        assert !Collect(rs).Ok?;
      } else if !Collect(rs[1..]).Ok? {
        var k :| 0 <= k < |rs[1..]| && !rs[1..][k].Ok?;
        assert !rs[k + 1].Ok?;
      }
    }
  }

  /** find_banks returns one map list per bank pointer, in the order of the
      bank pointers, and list `i` is the scan of bank `i`'s map table bounded
      by the start of bank `i + 1`'s table. It fails exactly when the
      bank-table scan or one of those map-table scans runs off the image. */
  lemma BanksShape(b: seq<byte>, start: nat)
    ensures Banks(b, start).Ok? <==>
      && PointerRun(b, start).Ok?
      && var ps := PointerRun(b, start).value;
         forall i :: 0 <= i < |ps| ==> ScanTable(b, ps[i], NextStart(ps, i)).Ok?
    ensures Banks(b, start).Ok? ==>
      var ps := PointerRun(b, start).value;
      var banks := Banks(b, start).value;
      && |banks| == |ps|
      && forall i :: 0 <= i < |ps| ==> Ok(banks[i]) == ScanTable(b, ps[i], NextStart(ps, i))
  {
    if PointerRun(b, start).Ok? {
      var ps := PointerRun(b, start).value;
      var scans := BankScans(b, ps);
      CollectShape(scans);
      assert forall i :: 0 <= i < |ps| ==> scans[i] == ScanTable(b, ps[i], NextStart(ps, i));
    }
  }

  /** Appending one element to the finished part of a list under construction. */
  lemma PrependCons<T>(xs: seq<T>, x: T, r: Result<seq<T>>)
    ensures Prepend(xs, Cons(x, r)) == Prepend(xs + [x], r)
  {
    if r.Ok? {
      assert xs + ([x] + r.value) == (xs + [x]) + r.value;
    }
  }

  /** Nothing finished yet: the list under construction is the rest. */
  lemma PrependNil<T>(r: Result<seq<T>>)
    ensures Prepend([], r) == r
  {
    if r.Ok? {
      assert [] + r.value == r.value;
    }
  }

  // ---------------------------------------------------------------------------
  // The decoder

  /** The inner loop of find_banks: read one bank's map table from `start`,
      appending each pointer, until a word is not a pointer or the offset
      reaches `next`, the start of the following bank's table. */
  method ScanMapTable(b: seq<byte>, start: nat, next: int) returns (r: Result<seq<int>>)
    ensures r == ScanTable(b, start, next)
  {
    var offset := start;
    var maps: seq<int> := [];
    PrependNil(ScanTable(b, offset, next));
    while true
      invariant ScanTable(b, start, next) == Prepend(maps, ScanTable(b, offset, next))
      decreases |b| - offset
    {
      if offset + 4 > |b| {
        return Err(ShortRead(offset));
      }
      if !IsPointer(b, offset) {
        assert maps + [] == maps;
        break;
      }
      var p := ReadPointer(b, offset);
      if offset + 4 == next {
        PrependCons(maps, p, Ok([]));
      } else {
        PrependCons(maps, p, ScanTable(b, offset + 4, next));
      }
      maps := maps + [p];
      offset := offset + 4;
      if offset == next {
        break;
      }
    }
    return Ok(maps);
  }

  /** The first loop of find_banks: the run of bank pointers at `start`. */
  method ReadBankPointers(b: seq<byte>, start: nat) returns (r: Result<seq<int>>)
    ensures r == PointerRun(b, start)
  {
    var offset := start;
    var bankPointers: seq<int> := [];
    PrependNil(PointerRun(b, start));
    while true
      invariant PointerRun(b, start) == Prepend(bankPointers, PointerRun(b, offset))
      decreases |b| - offset
    {
      if offset + 4 > |b| {
        return Err(ShortRead(offset));
      }
      if !IsPointer(b, offset) {
        assert bankPointers + [] == bankPointers;
        break;
      }
      var p := ReadPointer(b, offset);
      PrependCons(bankPointers, p, PointerRun(b, offset + 4));
      bankPointers := bankPointers + [p];
      offset := offset + 4;
    }
    return Ok(bankPointers);
  }

  /** Collecting from result `i` on: a failure there decides, a success is
      put in front of the rest. */
  lemma CollectStep<T>(rs: seq<Result<T>>, i: nat)
    requires i < |rs|
    ensures rs[i].Err? ==> Collect(rs[i..]) == Err(rs[i].error)
    ensures rs[i].Ok? ==> Collect(rs[i..]) == Cons(rs[i].value, Collect(rs[i + 1..]))
  {
    assert rs[i..][0] == rs[i] && rs[i..][1..] == rs[i + 1..];
  }

  /** find_banks, as the decoder runs it: collect the bank pointers, then scan
      each bank's map table, appending as it goes. */
  method FindBanks(b: seq<byte>, start: nat) returns (r: Result<seq<seq<int>>>)
    ensures r == Banks(b, start)
  {
    var run := ReadBankPointers(b, start);
    if run.Err? {
      return Err(run.error);
    }
    var bankPointers := run.value;
    ghost var scans := BankScans(b, bankPointers);
    var banks: seq<seq<int>> := [];
    var i := 0;
    assert scans[0..] == scans;
    PrependNil(Collect(scans));
    while i < |bankPointers|
      invariant 0 <= i <= |bankPointers|
      invariant Collect(scans) == Prepend(banks, Collect(scans[i..]))
    {
      var next := if i + 1 < |bankPointers| then bankPointers[i + 1] else 0;
      var maps := ScanMapTable(b, bankPointers[i], next);
      CollectStep(scans, i);
      if maps.Err? {
        return Err(maps.error);
      }
      PrependCons(banks, maps.value, Collect(scans[i + 1..]));
      banks := banks + [maps.value];
      i := i + 1;
    }
    assert banks + [] == banks;
    return Ok(banks);
  }
}
