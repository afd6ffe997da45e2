/**
 * The room-block cursor of the duty scheduler
 * (controllers/assignDutyController.js): every hostel keeps a pointer to the
 * last room covered; each day takes the next block of at most twenty rooms
 * after it, and the hostel is finished once a block reaches its last room.
 * The pointer is seeded from the latest stored `roomRange` text, and the
 * manual path counts the rooms of such a text with `calculateRoomCount`.
 *
 * Room numbers are JavaScript numbers: a pointer read from unparseable text,
 * or a hostel with no rooms, gives NaN, and NaN then flows through the
 * arithmetic as it does in JavaScript.
 */
module RoomBlocks {
  import opened Common
  import opened Text

  const ROOMS_PER_DAY: int := 20

  function Min(a: int, b: int): int {
    if a <= b then a else b
  }

  /** `x + k` on a JavaScript number. */
  function AddNum(x: Num, k: int): (r: Num)
    ensures r.NaN? <==> x.NaN?
    ensures r.Int? ==> r.v == x.v + k
  {
    match x
    case Int(v) => Int(v + k)
    case NaN => NaN
  }

  /** `${x}`: decimal text, or "NaN". */
  function NumToString(x: Num): string {
    match x
    case Int(v) => IntToString(v)
    case NaN => "NaN"
  }

  /** A day's rooms: the range `start-end` and whether it reaches the hostel's last room. */
  datatype Block = Block(start: Num, end: Num, finished: bool)

  /** What one day of a hostel yields: no block (the hostel stops), or a block. */
  datatype Day = Exhausted | Rooms(block: Block)

  /** Line 288: `(pointer % numberOfRooms) + 1`. */
  function BlockStart(pointer: Num, rooms: Num): (r: Num)
    ensures r.NaN? <==> pointer.NaN? || rooms.NaN? || rooms == Int(0)
  {
    match (pointer, rooms)
    case (Int(p), Int(n)) => AddNum(JsRem(p, n), 1)
    case _ => NaN
  }

  /** Lines 288-298: the next day's block after `pointer` in a hostel of `rooms` rooms. */
  function NextBlock(pointer: Num, rooms: Num): Day {
    var start := BlockStart(pointer, rooms);
    if start.Int? && rooms.Int? && start.v > rooms.v then Exhausted
    else
      var end := AddNum(start, ROOMS_PER_DAY - 1);
      if end.Int? && rooms.Int? && end.v >= rooms.v then Rooms(Block(start, rooms, true))
      else Rooms(Block(start, end, false))
  }

  /** Line 300: the `roomRange` text of a block. */
  function FormatRange(start: Num, end: Num): string {
    NumToString(start) + "-" + NumToString(end)
  }

  /** Line 351: the `numberOfRooms` of the duty written for a block, `end - start + 1`. */
  function BlockSize(b: Block): Num {
    match (b.start, b.end)
    case (Int(s), Int(e)) => Int(e - s + 1)
    case _ => NaN
  }

  /**
   * From a pointer that is a non-negative number, in a hostel with rooms, the
   * block starts at `pointer mod rooms + 1`, which lies in 1..rooms, and ends
   * at `min(start + 19, rooms)`: between one and twenty rooms. The hostel is
   * finished exactly when `start + 19 >= rooms`.
   */
  lemma NextBlockInRange(p: int, n: int)
    requires p >= 0 && n > 0
    ensures NextBlock(Int(p), Int(n)).Rooms?
    ensures var b := NextBlock(Int(p), Int(n)).block;
      && b.start == Int(p % n + 1) && 1 <= b.start.v <= n
      && b.end == Int(Min(b.start.v + ROOMS_PER_DAY - 1, n))
      && (b.finished <==> b.start.v + ROOMS_PER_DAY - 1 >= n)
      && BlockSize(b).Int? && 1 <= BlockSize(b).v <= ROOMS_PER_DAY
  {
  }

  /** The hostel stops without a block exactly when its room count is a negative number. */
  lemma NextBlockExhausted(pointer: Num, rooms: Num)
    ensures NextBlock(pointer, rooms) == Exhausted <==> pointer.Int? && rooms.Int? && rooms.v < 0
  {
    if pointer.Int? && rooms.Int? && rooms.v != 0 {
      var r := JsRem(pointer.v, rooms.v);
      assert r.Int?;
    }
  }

  /**
   * An unparseable pointer or a hostel with zero (or no) rooms gives the block
   * "NaN-NaN", which never finishes the hostel and leaves the pointer NaN.
   */
  lemma NextBlockNaN(pointer: Num, rooms: Num)
    requires pointer.NaN? || rooms.NaN? || rooms == Int(0)
    ensures NextBlock(pointer, rooms) == Rooms(Block(NaN, NaN, false))
    ensures FormatRange(NaN, NaN) == "NaN-NaN"
  {
  }

  // ---------------------------------------------------------------------
  // A hostel's blocks over consecutive days
  // ---------------------------------------------------------------------

  /** The blocks a hostel is given over at most `days` days, stopping after a finishing block. */
  function Schedule(pointer: Num, rooms: Num, days: nat): (bs: seq<Block>)
    ensures |bs| <= days
    decreases days
  {
    if days == 0 then []
    else match NextBlock(pointer, rooms)
      case Exhausted => []
      case Rooms(b) => if b.finished then [b] else [b] + Schedule(b.end, rooms, days - 1)
  }

  /** How many blocks remain from pointer `m` to the last room `n`. */
  function BlocksLeft(m: int, n: int): int {
    (n - m + ROOMS_PER_DAY - 1) / ROOMS_PER_DAY
  }

  /** The `j`-th block from pointer `m`: rooms `m + 20j + 1 .. min(m + 20j + 20, n)`. */
  function LapBlock(m: int, n: int, j: nat): Block {
    var first := m + ROOMS_PER_DAY * j + 1;
    Block(Int(first), Int(Min(first + ROOMS_PER_DAY - 1, n)), first + ROOMS_PER_DAY - 1 >= n)
  }

  lemma LapBlockShift(m: int, n: int, j: nat)
    requires j >= 1
    ensures LapBlock(m + ROOMS_PER_DAY, n, j - 1) == LapBlock(m, n, j)
  {
    assert m + ROOMS_PER_DAY + ROOMS_PER_DAY * (j - 1) == m + ROOMS_PER_DAY * j;
  }

  /** One day from a pointer inside the hostel: the block right after it, then the rest. */
  lemma ScheduleStep(m: int, n: int, days: nat)
    requires 0 <= m < n && days > 0
    ensures Schedule(Int(m), Int(n), days) ==
      if m + ROOMS_PER_DAY >= n then [LapBlock(m, n, 0)]
      else [LapBlock(m, n, 0)] + Schedule(Int(m + ROOMS_PER_DAY), Int(n), days - 1)
  {
    NextBlockFrom(m, n);
  }

  lemma JsRemBelow(a: int, b: int)
    requires 0 <= a < b
    ensures JsRem(a, b) == Int(a)
  {
    ModBelow(a, b);
    assert Abs(b) == b;
  }

  lemma ModBelow(a: int, b: int)
    requires 0 <= a < b
    ensures a % b == a
  {
  }

  lemma NextBlockFrom(m: int, n: int)
    requires 0 <= m < n
    ensures NextBlock(Int(m), Int(n)) == Rooms(LapBlock(m, n, 0))
  {
    JsRemBelow(m, n);
    assert BlockStart(Int(m), Int(n)) == Int(m + 1);
    assert LapBlock(m, n, 0) == Block(Int(m + 1), Int(Min(m + ROOMS_PER_DAY, n)), m + ROOMS_PER_DAY >= n);
  }

  /** From a pointer inside the hostel, day `j` gets the `j`-th block from the pointer, until the last room. */
  lemma {:induction false} ScheduleFrom(m: int, n: int, days: nat)
    requires 0 <= m < n
    ensures var bs := Schedule(Int(m), Int(n), days);
      && |bs| == Min(days, BlocksLeft(m, n))
      && forall j :: 0 <= j < |bs| ==> bs[j] == LapBlock(m, n, j)
    decreases days
  {
    if days > 0 {
      ScheduleStep(m, n, days);
      if m + ROOMS_PER_DAY < n {
        ScheduleFrom(m + ROOMS_PER_DAY, n, days - 1);
        var bs := Schedule(Int(m), Int(n), days);
        var rest := Schedule(Int(m + ROOMS_PER_DAY), Int(n), days - 1);
        assert BlocksLeft(m + ROOMS_PER_DAY, n) == BlocksLeft(m, n) - 1;
        forall j | 1 <= j < |bs| ensures bs[j] == LapBlock(m, n, j) {
          LapBlockShift(m, n, j);
        }
      } else {
        assert BlocksLeft(m, n) == 1;
      }
    }
  }

  /**
   * A pointer at or past the last room (the end a finished lap leaves, or a
   * hostel whose room count later shrank) wraps around: the schedule is the
   * one from the pointer's remainder, which `ScheduleFrom` describes. So
   * every non-negative pointer is covered.
   */
  lemma ScheduleOfWrappedPointer(m: int, n: int, days: nat)
    requires m >= 0 && n > 0
    ensures Schedule(Int(m), Int(n), days) == Schedule(Int(m % n), Int(n), days)
    ensures 0 <= m % n < n
  {
    JsRemBelow(m % n, n);
    assert JsRem(m, n) == Int(m % n);
  }

  /**
   * Starting from pointer 0 with enough days, the blocks of a hostel are
   * contiguous and ascending: the first starts at room 1, each starts right
   * after the previous one ends, only the last finishes the hostel, and it
   * ends at the last room. So together they cover rooms 1..n, each once.
   */
  lemma Lap(n: int, days: nat)
    requires n > 0 && days >= BlocksLeft(0, n)
    ensures var bs := Schedule(Int(0), Int(n), days);
      && |bs| == BlocksLeft(0, n) >= 1
      && bs[0].start == Int(1)
      && (forall j :: 0 <= j < |bs| ==> bs[j].start.Int? && bs[j].end.Int? && bs[j].start.v <= bs[j].end.v)
      && (forall j :: 0 <= j < |bs| - 1 ==> bs[j + 1].start.v == bs[j].end.v + 1 && !bs[j].finished)
      && bs[|bs| - 1].end == Int(n) && bs[|bs| - 1].finished
  {
    ScheduleFrom(0, n, days);
    var bs := Schedule(Int(0), Int(n), days);
    forall j | 0 <= j < |bs| - 1 ensures bs[j + 1].start.v == bs[j].end.v + 1 && !bs[j].finished {
      assert bs[j] == LapBlock(0, n, j) && bs[j + 1] == LapBlock(0, n, j + 1);
      assert ROOMS_PER_DAY * (j + 1) == ROOMS_PER_DAY * j + ROOMS_PER_DAY;
      assert ROOMS_PER_DAY * j + ROOMS_PER_DAY < n by {
        assert j + 1 < BlocksLeft(0, n);
      }
    }
    var last := |bs| - 1;
    assert bs[last] == LapBlock(0, n, last);
    assert ROOMS_PER_DAY * last + ROOMS_PER_DAY >= n;
  }

  // ---------------------------------------------------------------------
  // The stored range text
  // ---------------------------------------------------------------------

  /**
   * Lines 127-136: the pointer seeded from the latest stored `roomRange` of a
   * hostel: 0 without one (or with an empty one); otherwise the range is
   * split at '-', each piece trimmed and read with `parseInt`, and the second
   * number taken if there are two or more, else the first.
   */
  function InitialPointer(latest: Option<string>): Num {
    match latest
    case None => Int(0)
    case Some(range) =>
      if range == [] then Int(0)
      else
        var parts := Split(range, '-');
        if |parts| > 1 then ParseInt(Trim(parts[1])) else ParseInt(Trim(parts[0]))
  }

  lemma ParseIntWithoutMinus(s: string)
    requires '-' !in s
    ensures ParseInt(s).Int? ==> ParseInt(s).v >= 0
  {
    var t := TrimStart(s);
    if t != [] {
      assert t[0] == s[|s| - |t|];
    }
  }

  /** A piece between '-' separators, trimmed and read with `parseInt`, is never negative. */
  lemma PieceNotNegative(piece: string)
    requires '-' !in piece
    ensures ParseInt(Trim(piece)).Int? ==> ParseInt(Trim(piece)).v >= 0
  {
    TrimKeepsAbsent(piece, '-');
    ParseIntWithoutMinus(Trim(piece));
  }

  /** A piece between '-' carries no sign, so the seeded pointer is never negative. */
  lemma InitialPointerNotNegative(latest: Option<string>)
    ensures InitialPointer(latest).Int? ==> InitialPointer(latest).v >= 0
  {
    if latest.Some? && latest.value != [] {
      var parts := Split(latest.value, '-');
      PieceNotNegative(parts[if |parts| > 1 then 1 else 0]);
    }
  }

  lemma SplitRange(s: nat, e: nat)
    ensures Split(FormatRange(Int(s), Int(e)), '-') == [NatToString(s), NatToString(e)]
  {
    var x := NatToString(s);
    var y := NatToString(e);
    DigitsHaveNoSpace(x);
    DigitsHaveNoSpace(y);
    assert FormatRange(Int(s), Int(e)) == x + ['-'] + y;
    SplitAtSeparator(x, '-', y);
    SplitWithoutSeparator(y, '-');
  }

  /** The range written for a block, read back on the next run, seeds the pointer the block left. */
  lemma InitialPointerOfRange(s: nat, e: nat)
    ensures InitialPointer(Some(FormatRange(Int(s), Int(e)))) == Int(e)
  {
    SplitRange(s, e);
    var y := NatToString(e);
    assert IsDigit(y[0]) && IsDigit(y[|y| - 1]);
    TrimOfUnpadded(y);
    ParseIntOfNat(e);
  }

  /** "NaN" is no number to `parseInt`. */
  lemma ParseIntOfNaNText()
    ensures ParseInt("NaN") == NaN
  {
    assert TrimStart("NaN") == "NaN" by {
      assert !IsSpace('N');
    }
    assert DigitPrefix(Unsigned("NaN")) == [] by {
      assert !IsDigit('N');
    }
  }

  lemma SplitNaNRange()
    ensures Split(FormatRange(NaN, NaN), '-') == ["NaN", "NaN"]
  {
    var x := "NaN";
    assert '-' !in x;
    assert FormatRange(NaN, NaN) == x + ['-'] + x;
    SplitAtSeparator(x, '-', x);
    SplitWithoutSeparator(x, '-');
  }

  /** A "NaN-NaN" range read back seeds a NaN pointer, so such a hostel never recovers. */
  lemma InitialPointerOfNaNRange()
    ensures InitialPointer(Some(FormatRange(NaN, NaN))) == NaN
  {
    SplitNaNRange();
    assert Unpadded("NaN");
    TrimOfUnpadded("NaN");
    ParseIntOfNaNText();
  }

  /**
   * Lines 531-535: `calculateRoomCount(range)`: the range split at '-', the
   * first two pieces read with `Number`; `end - start + 1` if both are
   * numbers, else 0 (a missing second piece is NaN).
   */
  function CalculateRoomCount(range: string): int {
    var parts := Split(range, '-');
    var start := ToNumber(parts[0]);
    var end := if |parts| > 1 then ToNumber(parts[1]) else NaN;
    if start.Int? && end.Int? then end.v - start.v + 1 else 0
  }

  /** The count of a written range agrees with the `numberOfRooms` the scheduler stores for it. */
  lemma RoomCountOfRange(s: nat, e: nat)
    ensures CalculateRoomCount(FormatRange(Int(s), Int(e))) == e - s + 1
    ensures BlockSize(Block(Int(s), Int(e), false)) == Int(CalculateRoomCount(FormatRange(Int(s), Int(e))))
  {
    RoomCountOfFormatted(FormatRange(Int(s), Int(e)), s, e);
  }

  lemma RoomCountOfFormatted(range: string, s: nat, e: nat)
    requires range == FormatRange(Int(s), Int(e))
    ensures CalculateRoomCount(range) == e - s + 1
  {
    SplitRange(s, e);
    ToNumberOfNat(s);
    ToNumberOfNat(e);
    RoomCountOfParts(range, NatToString(s), NatToString(e), s, e);
  }

  lemma RoomCountOfParts(range: string, x: string, y: string, s: int, e: int)
    requires Split(range, '-') == [x, y]
    requires ToNumber(x) == Int(s) && ToNumber(y) == Int(e)
    ensures CalculateRoomCount(range) == e - s + 1
  {
  }

  /** Text without a '-' counts as 0 rooms. */
  lemma RoomCountWithoutDash(range: string)
    requires '-' !in range
    ensures CalculateRoomCount(range) == 0
  {
    SplitWithoutSeparator(range, '-');
  }
}
