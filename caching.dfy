/**
 * The editor's forward-only caching of entry bytes. Entry bytes are only ever
 * read from the single input cursor: to reach entry `i`, writeWEM and writeBNK
 * walk entries `0..i` and, for each entry whose start the cursor has not yet
 * passed, skip to that start and read the entry's original length into
 * `bufferedWEMs`. An entry whose start lies behind the cursor is not read
 * again; its cache slot keeps whatever it held.
 *
 * Fill models that walk, Emit the DATA loop of writeBNK built on it. Both are
 * written as "the state after the first k steps", which is what the loops'
 * invariants need.
 */
module Caching {
  import opened Wrappers
  import opened JavaTypes

  /** What the walk reads: the file, where the DATA payloads start (`offsetAbsolute`), and each entry's offset and original length. */
  datatype Source = Source(data: seq<byte>, start: int, offsets: seq<i32>, lengths: seq<i32>)

  /** The input cursor and the cache slots (`bufferedWEMs`, `None` for a slot never filled). */
  datatype Cursor = Cursor(pos: int, cache: seq<Option<seq<byte>>>)

  /** Where a walk stopped: the cursor and cache at that point, and the exception it threw, if any. */
  datatype Progress = Progress(at: Cursor, error: Option<Error>)

  /** The walk fits the source: one cache slot per entry, and a cursor that is a file position. */
  predicate Fits(src: Source, c: Cursor)
  {
    |src.offsets| == |src.lengths| == |c.cache| && 0 <= c.pos
  }

  /** Where entry `j` starts in the file: `offsets[j] + offsetAbsolute`, an `int` sum that wraps. */
  function Target(src: Source, j: int): i32
    requires 0 <= j < |src.offsets|
  {
    ToInt32(src.offsets[j] + src.start)
  }

  /** Entry `j`'s original bytes lie inside the file. */
  predicate InFile(src: Source, j: int)
    requires 0 <= j < |src.offsets| == |src.lengths|
  {
    0 <= Target(src, j) && 0 <= src.lengths[j] && Target(src, j) + src.lengths[j] <= |src.data|
  }

  /** Entry `j`'s original bytes. */
  function Original(src: Source, j: int): (r: seq<byte>)
    requires 0 <= j < |src.offsets| == |src.lengths| && InFile(src, j)
    ensures |r| == src.lengths[j]
  {
    src.data[Target(src, j)..Target(src, j) + src.lengths[j]]
  }

  /** Every filled cache slot holds its entry's original bytes. */
  predicate Faithful(src: Source, cache: seq<Option<seq<byte>>>)
    requires |src.offsets| == |src.lengths| == |cache|
  {
    forall j | 0 <= j < |cache| && cache[j].Some? :: InFile(src, j) && cache[j].value == Original(src, j)
  }

  /**
   * One step of the walk, for entry `j`: when the cursor has not passed the
   * entry's start, `skipUntil` the start (failing when it lies past the end)
   * and `read` the original length (failing on a negative length or too few
   * bytes, with the cursor already at the start); otherwise nothing happens.
   */
  function Step(src: Source, c: Cursor, j: int): (p: Progress)
    requires Fits(src, c) && 0 <= j < |c.cache|
    ensures |p.at.cache| == |c.cache| && p.at.pos >= c.pos
  {
    var target := Target(src, j);
    var length := src.lengths[j];
    if c.pos > target then Progress(c, None)
    else if target > |src.data| then Progress(c, Some(NotThatLong))
    else if length < 0 then Progress(c.(pos := target), Some(NegativeArraySize(length)))
    else if target + length > |src.data| then Progress(c.(pos := target), Some(NotThatLong))
    else Progress(Cursor(target + length, c.cache[j := Some(src.data[target..target + length])]), None)
  }

  /** The walk over entries `0..k-1`, stopping at the first exception. It never moves the cursor backward. */
  function Fill(src: Source, c: Cursor, k: int): (p: Progress)
    requires Fits(src, c) && 0 <= k <= |c.cache|
    ensures |p.at.cache| == |c.cache| && p.at.pos >= c.pos
  {
    if k == 0 then Progress(c, None)
    else
      var p := Fill(src, c, k - 1);
      if p.error.Some? then p else Step(src, p.at, k - 1)
  }

  /**
   * The walk keeps the cache faithful and the cursor inside the file, and
   * leaves every cache slot from `k` on as it was.
   */
  lemma {:induction false} FillFaithful(src: Source, c: Cursor, k: int)
    requires Fits(src, c) && 0 <= k <= |c.cache|
    requires Faithful(src, c.cache) && 0 <= c.pos <= |src.data|
    ensures var p := Fill(src, c, k);
      && Faithful(src, p.at.cache) && 0 <= p.at.pos <= |src.data|
      && p.at.cache[k..] == c.cache[k..]
  {
    if k > 0 {
      FillFaithful(src, c, k - 1);
      var p := Fill(src, c, k - 1);
      assert p.at.cache[k - 1..][1..] == p.at.cache[k..];
      assert c.cache[k - 1..][1..] == c.cache[k..];
    }
  }

  /** Once the walk throws, it stays where it stopped: the later entries are never reached. */
  lemma {:induction false} FillStops(src: Source, c: Cursor, i: int, k: int)
    requires Fits(src, c) && 0 <= i <= k <= |c.cache|
    requires Fill(src, c, i).error.Some?
    ensures Fill(src, c, k) == Fill(src, c, i)
    decreases k - i
  {
    if i < k {
      FillStops(src, c, i, k - 1);
    }
  }

  /** A walk over entries that all lie inside the file throws nothing. */
  lemma {:induction false} FillSucceeds(src: Source, c: Cursor, k: int)
    requires Fits(src, c) && 0 <= k <= |c.cache| && 0 <= c.pos
    requires forall j | 0 <= j < k :: InFile(src, j)
    ensures Fill(src, c, k).error.None?
  {
    if k > 0 {
      FillSucceeds(src, c, k - 1);
      assert InFile(src, k - 1);
    }
  }

  /** No entry before `k` ends after the position `t`. */
  predicate EndsBy(src: Source, k: int, t: int)
    requires 0 <= k <= |src.offsets| == |src.lengths|
  {
    forall j | 0 <= j < k :: Target(src, j) + src.lengths[j] <= t
  }

  /** A successful walk over entries that all end by `t`, from a cursor at or before `t`, stops at or before `t`. */
  lemma {:induction false} FillStaysBelow(src: Source, c: Cursor, k: int, t: int)
    requires Fits(src, c) && 0 <= k <= |c.cache|
    requires c.pos <= t && EndsBy(src, k, t)
    ensures Fill(src, c, k).error.None? ==> Fill(src, c, k).at.pos <= t
  {
    if k > 0 {
      FillStaysBelow(src, c, k - 1, t);
    }
  }

  /** Entries before `k` lie in the file one after the other without overlapping. */
  predicate Disjoint(src: Source, k: int)
    requires 0 <= k <= |src.offsets| == |src.lengths|
  {
    forall i, j | 0 <= i < j < k :: Target(src, i) + src.lengths[i] <= Target(src, j)
  }

  /**
   * For entries that do not overlap, a walk that starts at or before the last
   * entry's start and throws nothing leaves that entry's original bytes in its
   * cache slot.
   */
  lemma FillCachesLast(src: Source, c: Cursor, k: int)
    requires Fits(src, c) && 0 < k <= |c.cache|
    requires Disjoint(src, k) && c.pos <= Target(src, k - 1)
    requires Fill(src, c, k).error.None?
    ensures InFile(src, k - 1) && Fill(src, c, k).at.cache[k - 1] == Some(Original(src, k - 1))
    ensures Fill(src, c, k).at.pos == Target(src, k - 1) + src.lengths[k - 1]
  {
    assert EndsBy(src, k - 1, Target(src, k - 1));
    FillStaysBelow(src, c, k - 1, Target(src, k - 1));
  }

  /**
   * The entries lie in the file one after the other from `start` on, each at
   * the sum of the lengths before it, as in a bank whose offsets are the
   * running sums of its lengths.
   */
  predicate Consecutive(src: Source)
  {
    && |src.offsets| == |src.lengths| && 0 <= src.start
    && (forall k | 0 <= k < |src.lengths| :: 0 <= src.lengths[k])
    && src.start + Sum(src.lengths) <= |src.data|
    && forall k | 0 <= k < |src.lengths| :: Target(src, k) == src.start + Sum(src.lengths[..k])
  }

  /** Adding the next length to a prefix sum. */
  lemma SumStep(s: seq<int>, j: nat)
    requires j < |s|
    ensures Sum(s[..j + 1]) == Sum(s[..j]) + s[j]
  {
    assert s[..j + 1][..j] == s[..j];
  }

  /** A consecutive entry lies inside the file, at the sum of the lengths before it. */
  lemma ConsecutiveEntry(src: Source, k: int)
    requires Consecutive(src) && 0 <= k < |src.lengths|
    ensures InFile(src, k) && 0 <= Sum(src.lengths[..k]) && Target(src, k) == src.start + Sum(src.lengths[..k])
  {
    SumNonNegative(src.lengths[..k]);
    SumStep(src.lengths, k);
    SumPrefixMonotone(src.lengths, k + 1, |src.lengths|);
    assert src.lengths[..|src.lengths|] == src.lengths;
  }

  /** Consecutive entries lie inside the file and do not overlap. */
  lemma ConsecutiveInFile(src: Source, k: int)
    requires Consecutive(src) && 0 <= k <= |src.lengths|
    ensures forall j | 0 <= j < k :: InFile(src, j)
    ensures Disjoint(src, k)
  {
    forall j | 0 <= j < k
      ensures InFile(src, j)
    {
      ConsecutiveEntry(src, j);
    }
    forall i, j | 0 <= i < j < k
      ensures Target(src, i) + src.lengths[i] <= Target(src, j)
    {
      ConsecutiveEntry(src, i);
      ConsecutiveEntry(src, j);
      SumStep(src.lengths, i);
      SumPrefixMonotone(src.lengths, i + 1, j);
    }
  }

  /** What the DATA loop of writeBNK has done after entries `0..k-1`: the cursor and cache, the payloads written, and the exception, if any. */
  datatype Emitted = Emitted(at: Cursor, payloads: seq<seq<byte>>, error: Option<Error>)

  /**
   * The DATA loop of writeBNK over entries `0..k-1`: a replaced entry writes
   * its replacement's bytes; any other entry first walks entries `0..i` and
   * then writes its cache slot, which throws when the slot was never filled.
   */
  function Emit(src: Source, replacements: seq<Option<seq<byte>>>, c: Cursor, k: int): (e: Emitted)
    requires Fits(src, c) && |replacements| == |c.cache| && 0 <= k <= |c.cache|
    ensures |e.at.cache| == |c.cache| && e.at.pos >= c.pos
    ensures e.error.None? ==> |e.payloads| == k
  {
    if k == 0 then Emitted(c, [], None)
    else
      var e := Emit(src, replacements, c, k - 1);
      if e.error.Some? then e
      else if replacements[k - 1].Some? then Emitted(e.at, e.payloads + [replacements[k - 1].value], None)
      else
        var p := Fill(src, e.at, k);
        if p.error.Some? then Emitted(p.at, e.payloads, p.error)
        else if p.at.cache[k - 1].None? then Emitted(p.at, e.payloads, Some(NullPointer))
        else Emitted(p.at, e.payloads + [p.at.cache[k - 1].value], None)
  }

  /** Once the DATA loop throws, it stays where it stopped. */
  lemma {:induction false} EmitStops(src: Source, replacements: seq<Option<seq<byte>>>, c: Cursor, i: int, k: int)
    requires Fits(src, c) && |replacements| == |c.cache| && 0 <= i <= k <= |c.cache|
    requires Emit(src, replacements, c, i).error.Some?
    ensures Emit(src, replacements, c, k) == Emit(src, replacements, c, i)
    decreases k - i
  {
    if i < k {
      EmitStops(src, replacements, c, i, k - 1);
    }
  }

  /**
   * The DATA loop keeps the cache faithful and the cursor inside the file,
   * and, when it throws nothing, writes for
   * each entry its replacement's bytes or its original bytes, in entry order.
   */
  lemma {:induction false} EmitPayloads(src: Source, replacements: seq<Option<seq<byte>>>, c: Cursor, k: int)
    requires Fits(src, c) && |replacements| == |c.cache| && 0 <= k <= |c.cache|
    requires Faithful(src, c.cache) && 0 <= c.pos <= |src.data|
    ensures var e := Emit(src, replacements, c, k);
      && Faithful(src, e.at.cache) && e.at.pos <= |src.data|
      && (e.error.None? ==> forall i | 0 <= i < k ::
            if replacements[i].Some? then e.payloads[i] == replacements[i].value
            else InFile(src, i) && e.payloads[i] == Original(src, i))
  {
    if k > 0 {
      EmitPayloads(src, replacements, c, k - 1);
      var e := Emit(src, replacements, c, k - 1);
      if e.error.None? && replacements[k - 1].None? {
        FillFaithful(src, e.at, k);
      }
    }
  }

  /**
   * With nothing replaced and the entries one after the other, the DATA loop
   * started at the first entry throws nothing and reads every entry in turn:
   * after `k` entries the cursor is where entry `k` starts.
   */
  lemma {:induction false} EmitConsecutive(src: Source, c: Cursor, k: int)
    requires Consecutive(src) && Fits(src, c) && c.pos == src.start && 0 <= k <= |c.cache|
    ensures var e := Emit(src, seq(|c.cache|, _ => None), c, k);
      e.error.None? && e.at.pos == src.start + Sum(src.lengths[..k])
  {
    var none: seq<Option<seq<byte>>> := seq(|c.cache|, _ => None);
    if k > 0 {
      EmitConsecutive(src, c, k - 1);
      var e := Emit(src, none, c, k - 1);
      ConsecutiveInFile(src, k);
      FillSucceeds(src, e.at, k);
      FillCachesLast(src, e.at, k);
      EmitNext(src, none, c, k);
      SumStep(src.lengths, k - 1);
    }
  }

  /** An entry that is not replaced, whose walk throws nothing and fills its slot, is written and leaves the cursor where the walk left it. */
  lemma EmitNext(src: Source, replacements: seq<Option<seq<byte>>>, c: Cursor, k: int)
    requires Fits(src, c) && |replacements| == |c.cache| && 0 < k <= |c.cache| && replacements[k - 1].None?
    requires Emit(src, replacements, c, k - 1).error.None?
    requires Fill(src, Emit(src, replacements, c, k - 1).at, k).error.None?
    requires Fill(src, Emit(src, replacements, c, k - 1).at, k).at.cache[k - 1].Some?
    ensures Emit(src, replacements, c, k).error.None?
    ensures Emit(src, replacements, c, k).at == Fill(src, Emit(src, replacements, c, k - 1).at, k).at
  {
  }
}
