/**
 * The training-data scanner: the line stream of a training file is cut into
 * windows of `TurnSize` lines, each window is decoded into a turn, and a
 * counter of suspicious early-game events is kept; the counters of several
 * files are summed and listed in a fixed key order.
 */
module TrainingAnalysis {
  import opened Wrappers
  import opened Text
  import opened Sorting

  const Nibble: nat := 4
  const BoardSize: nat := 19
  const TurnSize: nat := 19
  const HistoryPlanes: nat := 8
  const ToMove: nat := 16
  const Policy: nat := 17
  const Winner: nat := 18

  /** `math.ceil(a / b)`, exact for the small operands it is used on. */
  function CeilDiv(a: nat, b: nat): (q: nat)
    requires b > 0
    ensures q * b >= a
    ensures q == 0 || (q - 1) * b < a
  {
    (a + b - 1) / b
  }

  /** Hex nibbles needed for the 361 points and the pass of a bit plane. */
  const ZeroWidth: nat := CeilDiv(BoardSize * BoardSize + 1, Nibble)

  /** A bit plane with no stone set (`"0" * width`), as it is read from the file with its terminator. */
  const ZeroLine: string := Zeros(ZeroWidth) + "\n"

  /** `"0" * n`. */
  function Zeros(n: nat): (s: string)
    ensures |s| == n && forall i :: 0 <= i < n ==> s[i] == '0'
  {
    seq(n, i => '0')
  }

  lemma ZeroLineShape()
    ensures ZeroWidth == 91 && |ZeroLine| == 92
    ensures forall i :: 0 <= i < 91 ==> ZeroLine[i] == '0'
    ensures ZeroLine[91] == '\n'
  {
  }

  /** `line == ZERO_LINE`, character by character. */
  predicate IsZeroLine(s: string) {
    |s| == ZeroWidth + 1 && s[ZeroWidth] == '\n' && forall i :: 0 <= i < ZeroWidth ==> s[i] == '0'
  }

  /** `IsZeroLine` is exactly equality with the constant. */
  lemma ZeroLineIff(s: string)
    ensures IsZeroLine(s) <==> s == ZeroLine
  {
    ZeroLineShape();
    if IsZeroLine(s) {
      assert forall i :: 0 <= i < |s| ==> s[i] == ZeroLine[i];
    }
  }

  // -------------------------------------------------------------------
  // Turns

  /** The exceptions the scan can raise. */
  datatype Error = ValueError | IndexError | TypeError

  /**
   * A decoded window: `Invalid` for a window with fewer than `TurnSize`
   * lines (the object whose `valid` is false), otherwise its fields.
   */
  datatype Turn =
    | Invalid
    | Valid(board: seq<string>, toMove: int, policyWeights: seq<string>, sideToMoveWon: int,
            emptyBoard: bool, earlyBoard: bool)

  /** A valid turn holds the sixteen history planes of the board. */
  predicate Decoded(t: Turn) {
    t.Valid? && |t.board| == HistoryPlanes * 2
  }

  predicate AllZero(board: seq<string>) {
    forall i :: 0 <= i < |board| ==> IsZeroLine(board[i])
  }

  /** `Turn(turn)`; `int()` on the side-to-move or winner line may raise `ValueError`. */
  function NewTurn(lines: seq<string>): (r: Result<Turn, Error>)
    ensures |lines| != TurnSize ==> r == Ok(Invalid)
    ensures r.Ok? ==> (r.value.Valid? <==> |lines| == TurnSize)
    ensures r.Err? <==>
      |lines| == TurnSize && (ParseInt(lines[ToMove]).None? || ParseInt(lines[Winner]).None?)
    ensures r.Err? ==> r.error == ValueError
    ensures r.Ok? && r.value.Valid? ==>
      && |lines| == TurnSize && Decoded(r.value)
      && r.value.board == lines[..HistoryPlanes * 2]
      && ParseInt(lines[ToMove]) == Some(r.value.toMove)
      && r.value.policyWeights == Split(lines[Policy])
      && ParseInt(lines[Winner]) == Some(r.value.sideToMoveWon)
      && r.value.emptyBoard == AllZero(r.value.board)
      && (r.value.earlyBoard <==> IsZeroLine(lines[HistoryPlanes * 2 - 1]))
  {
    if |lines| != TurnSize then Ok(Invalid)
    else
      var board := lines[..HistoryPlanes * 2];
      match ParseInt(lines[ToMove])
      case None => Err(ValueError)
      case Some(toMove) =>
        var policyWeights := Split(lines[Policy]);
        match ParseInt(lines[Winner])
        case None => Err(ValueError)
        case Some(won) =>
          Ok(Valid(board, toMove, policyWeights, won, AllZero(board), IsZeroLine(board[|board| - 1])))
  }

  /** An empty board is in particular empty on its most recent plane. */
  lemma EmptyIsEarly(lines: seq<string>)
    requires NewTurn(lines).Ok? && NewTurn(lines).value.Valid?
    ensures NewTurn(lines).value.emptyBoard ==> NewTurn(lines).value.earlyBoard
  {
    var t := NewTurn(lines).value;
    if t.emptyBoard {
      assert IsZeroLine(lines[HistoryPlanes * 2 - 1]);
    }
  }

  /** The 19 lines the training data holds for one position. */
  function TurnLines(board: seq<string>, toMove: int, policyWeights: seq<string>, won: int): (lines: seq<string>)
    requires |board| == HistoryPlanes * 2
    ensures |lines| == TurnSize
  {
    board + [Show(toMove) + "\n", Spaced(policyWeights) + "\n", Show(won) + "\n"]
  }

  /** Decoding a written turn gives back its fields. */
  lemma DecodeTurnLines(board: seq<string>, toMove: int, policyWeights: seq<string>, won: int)
    requires |board| == HistoryPlanes * 2
    requires forall i :: 0 <= i < |policyWeights| ==> IsWord(policyWeights[i])
    ensures NewTurn(TurnLines(board, toMove, policyWeights, won))
      == Ok(Valid(board, toMove, policyWeights, won, AllZero(board), IsZeroLine(board[|board| - 1])))
  {
    var lines := TurnLines(board, toMove, policyWeights, won);
    ParseIntShow(toMove, "\n");
    ParseIntShow(won, "\n");
    SplitTrailingSpace(Spaced(policyWeights), '\n');
    SplitSpaced(policyWeights);
    assert lines[..HistoryPlanes * 2] == board;
    assert lines[Policy] == Spaced(policyWeights) + ['\n'];
  }

  // -------------------------------------------------------------------
  // Counters

  datatype Key = StrKey(name: string) | IntKey(n: int)

  /** A `collections.Counter`: a missing key counts zero. */
  type Counter = map<Key, nat>

  const FirstMove := StrKey("first_move")
  const WhiteEarly := StrKey("white_early")
  const BlackPass := StrKey("black_pass")

  function Get(c: Counter, k: Key): nat {
    if k in c then c[k] else 0
  }

  /** `c[k] += 1`. */
  function Inc(c: Counter, k: Key): (r: Counter)
    ensures r.Keys == c.Keys + {k}
    ensures Get(r, k) == Get(c, k) + 1
    ensures forall j :: j != k ==> Get(r, j) == Get(c, j)
  {
    c[k := Get(c, k) + 1]
  }

  /** `list.count(w)`. */
  function Occurrences(ws: seq<string>, w: string): (n: nat)
    ensures n <= |ws|
    ensures n == 0 <==> w !in ws
    ensures n == multiset(ws)[w]
  {
    if ws == [] then 0
    else
      assert ws == [ws[0]] + ws[1..];
      (if ws[0] == w then 1 else 0) + Occurrences(ws[1..], w)
  }

  /** What a count under key `k` adds to the integer total. */
  function KeyWeight(k: Key, v: nat): nat {
    if k.IntKey? then v else 0
  }

  /** The weight an integer key adds to the integer total. */
  function IntWeight(c: Counter, k: Key): nat
    requires k in c
  {
    KeyWeight(k, c[k])
  }

  ghost function PickKey(c: Counter): Key
    requires c != map[]
  {
    var k :| k in c; k
  }

  /** The sum of the counts under integer keys. */
  ghost function IntTotal(c: Counter): nat
    decreases |c|
  {
    if c == map[] then 0
    else
      var k := PickKey(c);
      assert |c - {k}| < |c| by {
        assert c.Keys - {k} < c.Keys;
        assert (c - {k}).Keys == c.Keys - {k};
      }
      IntWeight(c, k) + IntTotal(c - {k})
  }

  lemma {:induction false} IntTotalRemove(c: Counter, j: Key)
    requires j in c
    ensures IntTotal(c) == IntWeight(c, j) + IntTotal(c - {j})
    decreases |c|
  {
    var k := PickKey(c);
    if k != j {
      assert (c - {k}).Keys == c.Keys - {k} && c.Keys - {k} < c.Keys;
      IntTotalRemove(c - {k}, j);
      assert (c - {j}).Keys == c.Keys - {j} && c.Keys - {j} < c.Keys;
      IntTotalRemove(c - {j}, k);
      assert (c - {k}) - {j} == (c - {j}) - {k};
    }
  }

  /** Setting one count changes the integer total by the difference, when the key is an integer. */
  lemma IntTotalUpdate(c: Counter, j: Key, v: nat)
    ensures IntTotal(c[j := v]) + KeyWeight(j, Get(c, j)) == IntTotal(c) + KeyWeight(j, v)
  {
    var d := c[j := v];
    IntTotalRemove(d, j);
    if j in c {
      IntTotalRemove(c, j);
      assert d - {j} == c - {j};
    } else {
      assert d - {j} == c;
    }
  }

  /** One window's increments (the body of the scan loop), with the corrected `print`. */
  function Tally(prev: Option<Turn>, t: Turn, count: Counter): (r: Counter)
    requires Decoded(t) && (prev.Some? ==> Decoded(prev.value))
    ensures Get(r, FirstMove) + Get(r, WhiteEarly) <= Get(count, FirstMove) + Get(count, WhiteEarly) + 1
    ensures IntTotal(r) + Get(count, BlackPass) == IntTotal(count) + Get(r, BlackPass)
    ensures forall k :: k != FirstMove && k != WhiteEarly && k != BlackPass && !k.IntKey? ==> Get(r, k) == Get(count, k)
    ensures Get(r, FirstMove) == Get(count, FirstMove) + (if t.emptyBoard && t.toMove == 0 then 1 else 0)
    ensures Get(r, WhiteEarly) == Get(count, WhiteEarly) + (if IsZeroLine(t.board[|t.board| - 1]) && t.toMove == 1 then 1 else 0)
    ensures Get(r, BlackPass) == Get(count, BlackPass) + (if BlackPassed(prev, t) then 1 else 0)
    ensures forall n: int ::
      Get(r, IntKey(n)) == Get(count, IntKey(n)) + (if BlackPassed(prev, t) && n == Occurrences(t.policyWeights, "0") then 1 else 0)
    ensures r.Keys == count.Keys
      + (if t.emptyBoard && t.toMove == 0 then {FirstMove} else {})
      + (if IsZeroLine(t.board[|t.board| - 1]) && t.toMove == 1 then {WhiteEarly} else {})
      + (if BlackPassed(prev, t) then {BlackPass, IntKey(Occurrences(t.policyWeights, "0"))} else {})
  {
    var first := t.emptyBoard && t.toMove == 0;
    var early := IsZeroLine(t.board[|t.board| - 1]) && t.toMove == 1;
    var passed := BlackPassed(prev, t);
    var zeros := Occurrences(t.policyWeights, "0");
    StepsKeys(count, first, early, passed, zeros);
    StepsStringCounts(count, first, early, passed, zeros);
    StepsIntCounts(count, first, early, passed, zeros);
    StepsIntTotal(count, first, early, passed, zeros);
    Steps(count, first, early, passed, zeros)
  }

  /** The four guarded increments of the loop body, in the order the source makes them. */
  function Steps(count: Counter, first: bool, early: bool, passed: bool, zeros: int): Counter {
    IncIf(IncIf(IncIf(IncIf(count, FirstMove, first), WhiteEarly, early), BlackPass, passed), IntKey(zeros), passed)
  }

  /** The keys the four increments add. */
  lemma StepsKeys(count: Counter, first: bool, early: bool, passed: bool, zeros: int)
    ensures Steps(count, first, early, passed, zeros).Keys == count.Keys
      + (if first then {FirstMove} else {}) + (if early then {WhiteEarly} else {})
      + (if passed then {BlackPass, IntKey(zeros)} else {})
  {
  }

  /** Each string key rises by one exactly when its guard holds; other string keys are untouched. */
  lemma StepsStringCounts(count: Counter, first: bool, early: bool, passed: bool, zeros: int)
    ensures var r := Steps(count, first, early, passed, zeros);
      && Get(r, FirstMove) == Get(count, FirstMove) + (if first then 1 else 0)
      && Get(r, WhiteEarly) == Get(count, WhiteEarly) + (if early then 1 else 0)
      && Get(r, BlackPass) == Get(count, BlackPass) + (if passed then 1 else 0)
      && forall k :: k != FirstMove && k != WhiteEarly && k != BlackPass && !k.IntKey? ==> Get(r, k) == Get(count, k)
  {
    StringKeysDistinct();
  }

  /** Only the integer key of the zero-weight count rises, and only on a black pass. */
  lemma StepsIntCounts(count: Counter, first: bool, early: bool, passed: bool, zeros: int)
    ensures forall n: int ::
      Get(Steps(count, first, early, passed, zeros), IntKey(n)) == Get(count, IntKey(n)) + (if passed && n == zeros then 1 else 0)
  {
  }

  /** The integer total rises by one exactly on a black pass. */
  lemma StepsIntTotal(count: Counter, first: bool, early: bool, passed: bool, zeros: int)
    ensures IntTotal(Steps(count, first, early, passed, zeros)) == IntTotal(count) + (if passed then 1 else 0)
  {
  }

  /** The three string keys the loop counts are different keys. */
  lemma StringKeysDistinct()
    ensures FirstMove != WhiteEarly && FirstMove != BlackPass && WhiteEarly != BlackPass
  {
    assert FirstMove.name[0] != WhiteEarly.name[0] && FirstMove.name[0] != BlackPass.name[0];
    assert WhiteEarly.name[0] != BlackPass.name[0];
  }

  /** `if b: c[k] += 1`, one guarded increment of the loop body. */
  function IncIf(c: Counter, k: Key, b: bool): (r: Counter)
    ensures r.Keys == c.Keys + (if b then {k} else {})
    ensures Get(r, k) == Get(c, k) + (if b then 1 else 0)
    ensures forall j :: j != k ==> Get(r, j) == Get(c, j)
    ensures IntTotal(r) == IntTotal(c) + (if b then KeyWeight(k, 1) else 0)
  {
    if b then IncIntTotal(c, k); Inc(c, k) else c
  }

  /** No window counts both a first move and an early white move: the side to move is one or the other. */
  lemma TallyFirstOrEarly(prev: Option<Turn>, t: Turn, count: Counter)
    requires Decoded(t) && (prev.Some? ==> Decoded(prev.value))
    ensures Get(Tally(prev, t, count), FirstMove) == Get(count, FirstMove)
         || Get(Tally(prev, t, count), WhiteEarly) == Get(count, WhiteEarly)
  {
  }

  lemma IncIntTotal(c: Counter, k: Key)
    ensures IntTotal(Inc(c, k)) == IntTotal(c) + KeyWeight(k, 1)
  {
    IntTotalUpdate(c, k, Get(c, k) + 1);
  }

  /** White moves on an unchanged, still early board: black has just passed. */
  predicate BlackPassed(prev: Option<Turn>, t: Turn)
    requires Decoded(t) && (prev.Some? ==> Decoded(prev.value))
  {
    prev.Some? && t.earlyBoard && prev.value.board == t.board && t.toMove == 1
  }

  /**
   * The message printed on a black pass reads the last policy weight of
   * both turns (`pass_weight`), which raises `IndexError` on an empty
   * policy line.
   */
  predicate PassWeightMissing(prev: Option<Turn>, t: Turn)
    requires Decoded(t) && (prev.Some? ==> Decoded(prev.value))
  {
    BlackPassed(prev, t) && (prev.value.policyWeights == [] || t.policyWeights == [])
  }

  /** The loop body with the corrected `print`: the increments, or the `IndexError` of the pass message. */
  function Step(prev: Option<Turn>, t: Turn, count: Counter): (r: Result<Counter, Error>)
    requires Decoded(t) && (prev.Some? ==> Decoded(prev.value))
    ensures r.Err? <==> PassWeightMissing(prev, t)
    ensures r.Err? ==> r.error == IndexError
    ensures r.Ok? ==> r.value == Tally(prev, t, count)
  {
    if PassWeightMissing(prev, t) then Err(IndexError) else Ok(Tally(prev, t, count))
  }

  /**
   * The loop body as written: after the pass message, a black pass with a
   * non-empty board echoes the board with `print(line, eol="")`, which
   * raises `TypeError`.
   */
  function StepAsWritten(prev: Option<Turn>, t: Turn, count: Counter): (r: Result<Counter, Error>)
    requires Decoded(t) && (prev.Some? ==> Decoded(prev.value))
    ensures r.Err? <==> PassWeightMissing(prev, t) || (BlackPassed(prev, t) && !t.emptyBoard)
    ensures r.Err? && !PassWeightMissing(prev, t) ==> r.error == TypeError
    ensures r == Step(prev, t, count) || r == Err(TypeError)
  {
    if PassWeightMissing(prev, t) then Err(IndexError)
    else if BlackPassed(prev, t) && !t.emptyBoard then Err(TypeError)
    else Ok(Tally(prev, t, count))
  }

  // -------------------------------------------------------------------
  // Scanning a file

  /** The next window: up to `TurnSize` lines, fewer at the end of the stream. */
  function WindowEnd(lines: seq<string>): (n: nat)
    ensures n <= |lines|
    ensures n == TurnSize || n == |lines| < TurnSize
  {
    if |lines| < TurnSize then |lines| else TurnSize
  }

  /**
   * `findEmptyBoard` on the lines still to be read, with the previous turn
   * and the counts so far: windows are decoded until one is short.
   */
  function Scan(lines: seq<string>, prev: Option<Turn>, count: Counter): Result<Counter, Error>
    requires prev.Some? ==> Decoded(prev.value)
    decreases |lines|
  {
    var n := WindowEnd(lines);
    match NewTurn(lines[..n])
    case Err(e) => Err(e)
    case Ok(t) =>
      if !t.Valid? then Ok(count)
      else
        match Step(prev, t, count)
        case Err(e) => Err(e)
        case Ok(c) => Scan(lines[n..], Some(t), c)
  }

  /** The same scan with the loop body as written. */
  function ScanAsWritten(lines: seq<string>, prev: Option<Turn>, count: Counter): Result<Counter, Error>
    requires prev.Some? ==> Decoded(prev.value)
    decreases |lines|
  {
    var n := WindowEnd(lines);
    match NewTurn(lines[..n])
    case Err(e) => Err(e)
    case Ok(t) =>
      if !t.Valid? then Ok(count)
      else
        match StepAsWritten(prev, t, count)
        case Err(e) => Err(e)
        case Ok(c) => ScanAsWritten(lines[n..], Some(t), c)
  }

  /** Every black pass also counts one integer key: the number of zero-probability moves. */
  ghost predicate Balanced(c: Counter) {
    Get(c, BlackPass) == IntTotal(c)
  }

  lemma {:induction false} ScanKeepsBalance(lines: seq<string>, prev: Option<Turn>, count: Counter)
    requires prev.Some? ==> Decoded(prev.value)
    requires Balanced(count)
    ensures Scan(lines, prev, count).Ok? ==> Balanced(Scan(lines, prev, count).value)
    decreases |lines|
  {
    var n := WindowEnd(lines);
    var r := NewTurn(lines[..n]);
    if r.Ok? && r.value.Valid? && !PassWeightMissing(prev, r.value) {
      var c := Tally(prev, r.value, count);
      TallyKeepsBalance(prev, r.value, count);
      ScanKeepsBalance(lines[n..], Some(r.value), c);
      assert Scan(lines, prev, count) == Scan(lines[n..], Some(r.value), c);
    }
  }

  /** One window's increments keep every black pass matched by an integer count. */
  lemma TallyKeepsBalance(prev: Option<Turn>, t: Turn, count: Counter)
    requires Decoded(t) && (prev.Some? ==> Decoded(prev.value))
    requires Balanced(count)
    ensures Balanced(Tally(prev, t, count))
  {
  }

  /** Lines after the last full window never change the outcome: the short window stops the scan. */
  lemma {:induction false} ScanIgnoresTail(lines: seq<string>, tail: seq<string>, prev: Option<Turn>, count: Counter)
    requires prev.Some? ==> Decoded(prev.value)
    requires |lines| % TurnSize == 0 && |tail| < TurnSize
    ensures Scan(lines + tail, prev, count) == Scan(lines, prev, count)
    decreases |lines|
  {
    var all := lines + tail;
    if lines == [] {
      assert all == tail;
      ShortWindowStops(tail, prev, count);
      ShortWindowStops(lines, prev, count);
    } else {
      WholeWindows(|lines|);
      assert all[..TurnSize] == lines[..TurnSize];
      assert all[TurnSize..] == lines[TurnSize..] + tail;
      var r := NewTurn(lines[..TurnSize]);
      if r.Ok? && r.value.Valid? && !PassWeightMissing(prev, r.value) {
        ScanStep(all, prev, count);
        ScanStep(lines, prev, count);
        ScanIgnoresTail(lines[TurnSize..], tail, Some(r.value), Tally(prev, r.value, count));
      }
    }
  }

  /** A non-empty run of whole windows starts with a full window and continues with whole windows. */
  lemma WholeWindows(n: nat)
    requires n % TurnSize == 0 && n != 0
    ensures n >= TurnSize && (n - TurnSize) % TurnSize == 0
  {
  }

  /** The first short window ends the scan and adds no counts. */
  lemma ShortWindowStops(lines: seq<string>, prev: Option<Turn>, count: Counter)
    requires prev.Some? ==> Decoded(prev.value)
    requires |lines| < TurnSize
    ensures Scan(lines, prev, count) == Ok(count)
  {
    assert lines[..WindowEnd(lines)] == lines;
  }

  /** The loop as written agrees with the corrected loop or stops with `TypeError`. */
  lemma {:induction false} AsWrittenAgreesOrCrashes(lines: seq<string>, prev: Option<Turn>, count: Counter)
    requires prev.Some? ==> Decoded(prev.value)
    ensures ScanAsWritten(lines, prev, count) == Scan(lines, prev, count)
         || ScanAsWritten(lines, prev, count) == Err(TypeError)
    decreases |lines|
  {
    var n := WindowEnd(lines);
    var r := NewTurn(lines[..n]);
    if r.Ok? && r.value.Valid? && !PassWeightMissing(prev, r.value) && !(BlackPassed(prev, r.value) && !r.value.emptyBoard) {
      AsWrittenAgreesOrCrashes(lines[n..], Some(r.value), Tally(prev, r.value, count));
    }
  }

  /**
   * A turn that, read twice in a row, is a black pass in the early game on
   * a board with a stone: white to move, the most recent plane empty, the
   * board not empty, and a policy line to read the pass weight from.
   */
  predicate RepeatedPass(t: Turn) {
    && Decoded(t) && t.toMove == 1 && t.earlyBoard && IsZeroLine(t.board[HistoryPlanes * 2 - 1])
    && !t.emptyBoard && t.policyWeights != []
  }

  /** The same window twice over such a turn: the loop as written stops with `TypeError`. */
  lemma RepeatedWindowCrashes(w: seq<string>, t: Turn)
    requires NewTurn(w) == Ok(t) && RepeatedPass(t)
    ensures ScanAsWritten(w + w, None, map[]) == Err(TypeError)
  {
    assert (w + w)[..TurnSize] == w && (w + w)[TurnSize..] == w;
    assert w[..TurnSize] == w;
    FirstTally(t);
    ScanAsWrittenStep(w + w, None, map[]);
    assert BlackPassed(Some(t), t);
  }

  /** The corrected loop reads both windows and counts the pass. */
  lemma RepeatedWindowCounted(w: seq<string>, t: Turn)
    requires NewTurn(w) == Ok(t) && RepeatedPass(t)
    ensures Scan(w + w, None, map[])
      == Ok(map[WhiteEarly := 2, BlackPass := 1, IntKey(Occurrences(t.policyWeights, "0")) := 1])
  {
    FirstWindowCounted(w, t);
    SecondWindowCounted(w, t);
  }

  lemma FirstWindowCounted(w: seq<string>, t: Turn)
    requires NewTurn(w) == Ok(t) && RepeatedPass(t)
    ensures Scan(w + w, None, map[]) == Scan(w, Some(t), map[WhiteEarly := 1])
  {
    assert (w + w)[..TurnSize] == w && (w + w)[TurnSize..] == w;
    FirstTally(t);
    ScanStepWith(w + w, None, map[], t);
  }

  lemma SecondWindowCounted(w: seq<string>, t: Turn)
    requires NewTurn(w) == Ok(t) && RepeatedPass(t)
    ensures Scan(w, Some(t), map[WhiteEarly := 1])
      == Ok(map[WhiteEarly := 2, BlackPass := 1, IntKey(Occurrences(t.policyWeights, "0")) := 1])
  {
    var c2: Counter := map[WhiteEarly := 2, BlackPass := 1, IntKey(Occurrences(t.policyWeights, "0")) := 1];
    assert w[..TurnSize] == w && w[TurnSize..] == [];
    SecondTally(t);
    ScanStepWith(w, Some(t), map[WhiteEarly := 1], t);
    ShortWindowStops([], Some(t), c2);
  }

  /** `ScanStep` for a window already known to decode to `t`. */
  lemma ScanStepWith(lines: seq<string>, prev: Option<Turn>, count: Counter, t: Turn)
    requires prev.Some? ==> Decoded(prev.value)
    requires |lines| >= TurnSize && NewTurn(lines[..TurnSize]) == Ok(t) && t.Valid? && !PassWeightMissing(prev, t)
    ensures Scan(lines, prev, count) == Scan(lines[TurnSize..], Some(t), Tally(prev, t, count))
  {
    ScanStep(lines, prev, count);
  }

  /** A full window that decodes to a valid turn is tallied and the scan goes on after it. */
  lemma ScanStep(lines: seq<string>, prev: Option<Turn>, count: Counter)
    requires prev.Some? ==> Decoded(prev.value)
    requires |lines| >= TurnSize && NewTurn(lines[..TurnSize]).Ok? && NewTurn(lines[..TurnSize]).value.Valid?
    requires !PassWeightMissing(prev, NewTurn(lines[..TurnSize]).value)
    ensures Scan(lines, prev, count)
      == Scan(lines[TurnSize..], Some(NewTurn(lines[..TurnSize]).value), Tally(prev, NewTurn(lines[..TurnSize]).value, count))
  {
  }

  /** The same step for the loop as written, where the window raises nothing. */
  lemma ScanAsWrittenStep(lines: seq<string>, prev: Option<Turn>, count: Counter)
    requires prev.Some? ==> Decoded(prev.value)
    requires |lines| >= TurnSize && NewTurn(lines[..TurnSize]).Ok? && NewTurn(lines[..TurnSize]).value.Valid?
    requires StepAsWritten(prev, NewTurn(lines[..TurnSize]).value, count).Ok?
    ensures ScanAsWritten(lines, prev, count)
      == ScanAsWritten(lines[TurnSize..], Some(NewTurn(lines[..TurnSize]).value), Tally(prev, NewTurn(lines[..TurnSize]).value, count))
  {
  }

  /** The counts after the first window: white to move on an early board. */
  lemma FirstTally(t: Turn)
    requires RepeatedPass(t)
    ensures Tally(None, t, map[]) == map[WhiteEarly := 1]
  {
    assert Inc(map[], WhiteEarly) == map[WhiteEarly := 1];
  }

  /** The counts after the second window: one more white_early, the pass, and its count of zero-probability moves. */
  lemma SecondTally(t: Turn)
    requires RepeatedPass(t)
    ensures Tally(Some(t), t, map[WhiteEarly := 1])
      == map[WhiteEarly := 2, BlackPass := 1, IntKey(Occurrences(t.policyWeights, "0")) := 1]
  {
    var two: Counter := map[WhiteEarly := 2];
    assert Inc(map[WhiteEarly := 1], WhiteEarly) == two;
    var passed: Counter := map[WhiteEarly := 2, BlackPass := 1];
    assert Inc(two, BlackPass) == passed;
    var z := IntKey(Occurrences(t.policyWeights, "0"));
    assert Inc(passed, z) == map[WhiteEarly := 2, BlackPass := 1, z := 1];
    assert BlackPassed(Some(t), t);
  }

  /** A board with one stone, repeated after black's pass: the loop as written stops with `TypeError`. */
  lemma BlackPassCrashes()
    ensures ScanAsWritten(PassedGame(), None, map[]) == Err(TypeError)
  {
    PassedWindowDecodes();
    RepeatedWindowCrashes(PassedWindow(), PassedTurn());
  }

  /** The corrected loop runs on over the same lines and counts the pass. */
  lemma BlackPassCounted()
    ensures Scan(PassedGame(), None, map[]) == Ok(map[WhiteEarly := 2, BlackPass := 1, IntKey(0) := 1])
  {
    PassedWindowDecodes();
    RepeatedWindowCounted(PassedWindow(), PassedTurn());
    assert Occurrences(PassedTurn().policyWeights, "0") == 0;
  }

  /** One window of `PassedGame`. */
  function PassedWindow(): (w: seq<string>)
    ensures |w| == TurnSize
  {
    TurnLines(PassedBoard(), 1, ["1"], 1)
  }

  /** The turn both windows of `PassedGame` decode to. */
  function PassedTurn(): (t: Turn)
    ensures RepeatedPass(t) && t.board == PassedBoard() && t.policyWeights == ["1"]
  {
    Valid(PassedBoard(), 1, ["1"], 1, false, true)
  }

  lemma PassedWindowDecodes()
    ensures NewTurn(PassedWindow()) == Ok(PassedTurn())
  {
    var board := PassedBoard();
    DecodeTurnLines(board, 1, ["1"], 1);
    assert !IsZeroLine(board[0]);
    assert !AllZero(board);
    ZeroLineIff(ZeroLine);
    assert IsZeroLine(board[|board| - 1]);
  }

  /** Sixteen planes where only the oldest has a stone, so the most recent plane is empty. */
  function PassedBoard(): (b: seq<string>)
    ensures |b| == HistoryPlanes * 2
  {
    ["1\n"] + seq(15, _ => ZeroLine)
  }

  /** Two identical windows with white to move and a one-move policy line. */
  function PassedGame(): seq<string> {
    PassedWindow() + PassedWindow()
  }

  /** `findEmptyBoard` on the lines of one file. */
  method FindEmptyBoard(lines: seq<string>) returns (r: Result<Counter, Error>)
    ensures r == Scan(lines, None, map[])
    ensures r.Ok? ==> Balanced(r.value)
  {
    var count: Counter := map[];
    var prevTurn: Option<Turn> := None;
    var rest := lines;
    IntTotalEmpty();
    ScanKeepsBalance(lines, None, map[]);
    while true
      invariant prevTurn.Some? ==> Decoded(prevTurn.value)
      invariant Scan(rest, prevTurn, count) == Scan(lines, None, map[])
      decreases |rest|
    {
      var n := WindowEnd(rest);
      var decoded := NewTurn(rest[..n]);
      if decoded.Err? {
        return Err(decoded.error);
      }
      var turn := decoded.value;
      if !turn.Valid? {
        break;
      }
      ghost var before := count;
      if turn.emptyBoard && turn.toMove == 0 {
        count := Inc(count, FirstMove);
      }
      if IsZeroLine(turn.board[|turn.board| - 1]) && turn.toMove == 1 {
        count := Inc(count, WhiteEarly);
      }
      if BlackPassed(prevTurn, turn) {
        if prevTurn.value.policyWeights == [] || turn.policyWeights == [] {
          return Err(IndexError);
        }
        count := Inc(count, BlackPass);
        count := Inc(count, IntKey(Occurrences(turn.policyWeights, "0")));
      }
      assert count == Tally(prevTurn, turn, before);
      prevTurn := Some(turn);
      rest := rest[n..];
    }
    return Ok(count);
  }

  lemma IntTotalEmpty()
    ensures IntTotal(map[]) == 0
  {
  }

  // -------------------------------------------------------------------
  // Summing the files

  /** `a.update(b)` on counters: counts are added key by key. */
  function Merge(a: Counter, b: Counter): (r: Counter)
    ensures r.Keys == a.Keys + b.Keys
    ensures forall k :: Get(r, k) == Get(a, k) + Get(b, k)
  {
    map k | k in a.Keys + b.Keys :: Get(a, k) + Get(b, k)
  }

  lemma MergeCommutes(a: Counter, b: Counter)
    ensures Merge(a, b) == Merge(b, a)
  {
    assert forall k :: k in Merge(a, b) ==> Merge(a, b)[k] == Get(Merge(a, b), k);
  }

  lemma MergeAssociates(a: Counter, b: Counter, c: Counter)
    ensures Merge(Merge(a, b), c) == Merge(a, Merge(b, c))
  {
    var l, r := Merge(Merge(a, b), c), Merge(a, Merge(b, c));
    forall k | k in l
      ensures l[k] == r[k]
    {
      assert l[k] == Get(l, k) && r[k] == Get(r, k);
    }
  }

  /** The total after the loop of `main` over the per-file counters, in file order. */
  function MergeAll(cs: seq<Counter>): Counter {
    if cs == [] then map[] else Merge(MergeAll(cs[..|cs| - 1]), cs[|cs| - 1])
  }

  /** Summing the integer keys commutes with merging. */
  lemma {:induction false} IntTotalMerge(a: Counter, b: Counter)
    ensures IntTotal(Merge(a, b)) == IntTotal(a) + IntTotal(b)
    decreases |b|
  {
    if b == map[] {
      assert Merge(a, b) == a;
      IntTotalEmpty();
    } else {
      var j := PickKey(b);
      var b' := b - {j};
      assert b'.Keys == b.Keys - {j} && b.Keys - {j} < b.Keys;
      IntTotalMerge(a, b');
      IntTotalMergeStep(a, b, j);
    }
  }

  lemma IntTotalMergeStep(a: Counter, b: Counter, j: Key)
    requires j in b
    requires IntTotal(Merge(a, b - {j})) == IntTotal(a) + IntTotal(b - {j})
    ensures IntTotal(Merge(a, b)) == IntTotal(a) + IntTotal(b)
  {
    var m := Merge(a, b - {j});
    AddOneKey(m, b, j, IntTotal(a));
    var mb := m[j := Get(m, j) + b[j]];
    assert IntTotal(mb) == IntTotal(a) + IntTotal(b);
    MergeRemove(a, b, j);
    assert Merge(a, b) == mb;
  }

  /** Adding the count of one more key of `b` to `m`. */
  lemma AddOneKey(m: Counter, b: Counter, j: Key, base: nat)
    requires j in b
    requires IntTotal(m) == base + IntTotal(b - {j})
    ensures IntTotal(m[j := Get(m, j) + b[j]]) == base + IntTotal(b)
  {
    IntTotalAdd(m, j, b[j]);
    IntTotalRemove(b, j);
  }

  /** Adding to one count adds to the integer total when the key is an integer. */
  lemma IntTotalAdd(c: Counter, j: Key, x: nat)
    ensures IntTotal(c[j := Get(c, j) + x]) == IntTotal(c) + KeyWeight(j, x)
  {
    IntTotalUpdate(c, j, Get(c, j) + x);
    assert KeyWeight(j, Get(c, j) + x) == KeyWeight(j, Get(c, j)) + KeyWeight(j, x);
  }

  /** Merging in one more key of `b` adds its count to what the rest of `b` gave. */
  lemma MergeRemove(a: Counter, b: Counter, j: Key)
    requires j in b
    ensures Merge(a, b) == Merge(a, b - {j})[j := Get(Merge(a, b - {j}), j) + b[j]]
  {
    var m := Merge(a, b - {j});
    var l, r := Merge(a, b), m[j := Get(m, j) + b[j]];
    assert l.Keys == r.Keys;
    forall k | k in l
      ensures l[k] == r[k]
    {
      assert l[k] == Get(l, k);
      if k != j {
        assert r[k] == Get(m, k);
      }
    }
  }

  /** Merging keeps every black pass matched by an integer count. */
  lemma MergeKeepsBalance(a: Counter, b: Counter)
    requires Balanced(a) && Balanced(b)
    ensures Balanced(Merge(a, b))
  {
    IntTotalMerge(a, b);
  }

  lemma MergeAllLast(cs: seq<Counter>, y: Counter)
    ensures MergeAll(cs + [y]) == Merge(MergeAll(cs), y)
  {
    assert (cs + [y])[..|cs|] == cs;
  }

  lemma AppendLast<T>(p: seq<T>, b: seq<T>)
    requires b != []
    ensures p + b == p + b[..|b| - 1] + [b[|b| - 1]]
  {
    assert b == b[..|b| - 1] + [b[|b| - 1]];
  }

  /** Pulling one counter out of the middle of the sequence and merging it last. */
  lemma {:induction false} MergeAllExtract(a: seq<Counter>, x: Counter, b: seq<Counter>)
    ensures MergeAll(a + [x] + b) == Merge(MergeAll(a + b), x)
    decreases |b|
  {
    if b == [] {
      assert a + [x] + b == a + [x];
      assert (a + [x])[..|a|] == a;
      assert a + b == a;
    } else {
      var b' := b[..|b| - 1];
      var y := b[|b| - 1];
      MergeAllExtract(a, x, b');
      var rest := MergeAll(a + b');
      calc {
        MergeAll(a + [x] + b);
        { MergeAllLast(a + [x] + b', y); AppendLast(a + [x], b); }
        Merge(MergeAll(a + [x] + b'), y);
        Merge(Merge(rest, x), y);
        { MergeAssociates(rest, x, y); MergeCommutes(x, y); MergeAssociates(rest, y, x); }
        Merge(Merge(rest, y), x);
        { MergeAllLast(a + b', y); AppendLast(a, b); }
        Merge(MergeAll(a + b), x);
      }
    }
  }

  /** The totals do not depend on the order in which the files are given. */
  lemma {:induction false} MergeAllPermutation(cs: seq<Counter>, ds: seq<Counter>)
    requires multiset(cs) == multiset(ds)
    ensures MergeAll(cs) == MergeAll(ds)
    decreases |cs|
  {
    if cs != [] {
      var x := cs[|cs| - 1];
      var cs' := cs[..|cs| - 1];
      assert cs == cs' + [x];
      assert x in multiset(ds);
      var j :| 0 <= j < |ds| && ds[j] == x;
      var a, b := ds[..j], ds[j + 1..];
      RemoveOne(cs', x, ds, j);
      MergeAllPermutation(cs', a + b);
      MergeAllExtract(a, x, b);
    } else {
      assert |ds| == 0;
    }
  }

  /** Taking the same element out of two permutations of each other leaves permutations. */
  lemma RemoveOne<T>(cs: seq<T>, x: T, ds: seq<T>, j: nat)
    requires multiset(cs + [x]) == multiset(ds)
    requires j < |ds| && ds[j] == x
    ensures multiset(cs) == multiset(ds[..j] + ds[j + 1..])
    ensures ds == ds[..j] + [x] + ds[j + 1..]
  {
    var a, b := ds[..j], ds[j + 1..];
    assert ds == a + [x] + b;
    assert multiset(ds) == multiset(a) + multiset{x} + multiset(b);
    assert multiset(cs + [x]) == multiset(cs) + multiset{x};
    assert multiset(cs) == multiset(cs + [x]) - multiset{x};
    assert multiset(ds) - multiset{x} == multiset(a) + multiset(b);
    assert multiset(a + b) == multiset(a) + multiset(b);
  }

  // -------------------------------------------------------------------
  // Key order of the report

  /** Python's `<` on strings: code point by code point, a proper prefix first. */
  predicate StrLess(a: string, b: string) {
    b != [] && (a == [] || a[0] < b[0] || (a[0] == b[0] && StrLess(a[1..], b[1..])))
  }

  lemma {:induction false} StrLessIrreflexive(a: string)
    ensures !StrLess(a, a)
  {
    if a != [] {
      StrLessIrreflexive(a[1..]);
    }
  }

  lemma {:induction false} StrLessTransitive(a: string, b: string, c: string)
    requires StrLess(a, b) && StrLess(b, c)
    ensures StrLess(a, c)
  {
    if a != [] && a[0] == b[0] && b[0] == c[0] {
      StrLessTransitive(a[1..], b[1..], c[1..]);
    }
  }

  lemma {:induction false} StrLessTotal(a: string, b: string)
    requires a != b
    ensures StrLess(a, b) || StrLess(b, a)
  {
    if a != [] && b != [] && a[0] == b[0] {
      assert a == [a[0]] + a[1..] && b == [b[0]] + b[1..];
      StrLessTotal(a[1..], b[1..]);
    }
  }

  /** The sort key `(type(k) == int, k)`: names first, then numbers, each ascending. */
  predicate KeyBefore(a: Key, b: Key) {
    match (a, b)
    case (StrKey(x), StrKey(y)) => StrLess(x, y)
    case (StrKey(_), IntKey(_)) => true
    case (IntKey(_), StrKey(_)) => false
    case (IntKey(x), IntKey(y)) => x < y
  }

  /** `KeyBefore` is a strict total order. */
  lemma KeyOrder()
    ensures forall a :: !KeyBefore(a, a)
    ensures forall a, b, c :: KeyBefore(a, b) && KeyBefore(b, c) ==> KeyBefore(a, c)
    ensures forall a, b :: a != b ==> KeyBefore(a, b) || KeyBefore(b, a)
  {
    forall a ensures !KeyBefore(a, a) {
      if a.StrKey? { StrLessIrreflexive(a.name); }
    }
    forall a, b, c | KeyBefore(a, b) && KeyBefore(b, c)
      ensures KeyBefore(a, c)
    {
      KeyTransitive(a, b, c);
    }
    forall a, b | a != b
      ensures KeyBefore(a, b) || KeyBefore(b, a)
    {
      KeyTotal(a, b);
    }
  }

  lemma KeyTransitive(a: Key, b: Key, c: Key)
    requires KeyBefore(a, b) && KeyBefore(b, c)
    ensures KeyBefore(a, c)
  {
    if a.StrKey? && b.StrKey? && c.StrKey? { StrLessTransitive(a.name, b.name, c.name); }
  }

  lemma KeyTotal(a: Key, b: Key)
    requires a != b
    ensures KeyBefore(a, b) || KeyBefore(b, a)
  {
    if a.StrKey? && b.StrKey? { StrLessTotal(a.name, b.name); }
  }

  /** Every non-empty set of keys has a first key. */
  lemma {:induction false} MinimumExists(keys: set<Key>)
    requires keys != {}
    ensures exists m :: m in keys && forall k :: k in keys && k != m ==> KeyBefore(m, k)
    decreases |keys|
  {
    var x :| x in keys;
    var rest := keys - {x};
    if rest != {} {
      MinimumExists(rest);
      var m :| m in rest && forall k :: k in rest && k != m ==> KeyBefore(m, k);
      if KeyBefore(x, m) {
        forall k | k in keys && k != x
          ensures KeyBefore(x, k)
        {
          if k != m { KeyTransitive(x, m, k); }
        }
      } else {
        KeyTotal(x, m);
        assert forall k :: k in keys && k != m ==> KeyBefore(m, k);
      }
    } else {
      forall k | k in keys
        ensures k == x
      {
        assert k !in rest;
      }
    }
  }

  /** `sorted(keys, key=lambda k: (type(k) == int, k))`. */
  function SortedKeys(keys: set<Key>): (ks: seq<Key>)
    ensures forall k :: k in ks <==> k in keys
    ensures forall i, j :: 0 <= i < j < |ks| ==> KeyBefore(ks[i], ks[j])
    decreases |keys|
  {
    if keys == {} then []
    else
      MinimumExists(keys);
      KeyOrder();
      var m :| m in keys && forall k :: k in keys && k != m ==> KeyBefore(m, k);
      var rest := SortedKeys(keys - {m});
      assert forall i :: 0 <= i < |rest| ==> KeyBefore(m, rest[i]);
      [m] + rest
  }

  /** Two key lists in that order with the same members are the same list: the report order is fixed. */
  lemma {:induction false} SortedKeysUnique(xs: seq<Key>, ys: seq<Key>)
    requires forall i, j :: 0 <= i < j < |xs| ==> KeyBefore(xs[i], xs[j])
    requires forall i, j :: 0 <= i < j < |ys| ==> KeyBefore(ys[i], ys[j])
    requires forall k :: k in xs <==> k in ys
    ensures xs == ys
    decreases |xs|
  {
    KeyOrder();
    SameMembersEmpty(xs, ys);
    if xs != [] {
      assert xs[0] in ys && ys[0] in xs;
      if xs[0] != ys[0] {
        assert false;
      }
      forall k
        ensures k in xs[1..] <==> k in ys[1..]
      {
        if k in xs[1..] {
          var i :| 0 <= i < |xs| - 1 && xs[1..][i] == k;
          assert KeyBefore(xs[0], xs[i + 1]);
          assert k in ys;
          var j :| 0 <= j < |ys| && ys[j] == k;
          assert j != 0;
          assert ys[1..][j - 1] == k;
        }
        if k in ys[1..] {
          var i :| 0 <= i < |ys| - 1 && ys[1..][i] == k;
          assert KeyBefore(ys[0], ys[i + 1]);
          assert k in xs;
          var j :| 0 <= j < |xs| && xs[j] == k;
          assert j != 0;
          assert xs[1..][j - 1] == k;
        }
      }
      SortedKeysUnique(xs[1..], ys[1..]);
    }
  }

  lemma SameMembersEmpty(xs: seq<Key>, ys: seq<Key>)
    requires forall k :: k in xs <==> k in ys
    ensures xs == [] <==> ys == []
  {
    if xs != [] { assert xs[0] in ys; }
    if ys != [] { assert ys[0] in xs; }
  }

  // -------------------------------------------------------------------
  // main

  /** The totals of all files, or the error of the first file that fails. */
  function Totals(files: seq<seq<string>>): Result<Counter, Error> {
    if files == [] then Ok(map[])
    else
      match Totals(files[..|files| - 1])
      case Err(e) => Err(e)
      case Ok(total) =>
        match Scan(files[|files| - 1], None, map[])
        case Err(e) => Err(e)
        case Ok(c) => Ok(Merge(total, c))
  }

  /** The printed report: each key of the totals with its count, in key order. */
  function Report(total: Counter): (lines: seq<(Key, nat)>)
    ensures |lines| == |SortedKeys(total.Keys)|
    ensures forall i :: 0 <= i < |lines| ==> lines[i].0 in total && lines[i].1 == total[lines[i].0]
    ensures forall i, j :: 0 <= i < j < |lines| ==> KeyBefore(lines[i].0, lines[j].0)
    ensures forall i :: 0 <= i < |lines| ==>
      lines[i] == (SortedKeys(total.Keys)[i], total[SortedKeys(total.Keys)[i]])
  {
    var ks := SortedKeys(total.Keys);
    seq(|ks|, i requires 0 <= i < |ks| => (ks[i], total[ks[i]]))
  }

  /** Every key of the totals is reported, on exactly one line. */
  lemma ReportListsEveryKey(total: Counter, k: Key)
    requires k in total
    ensures exists i :: 0 <= i < |Report(total)| && Report(total)[i] == (k, total[k])
    ensures forall i, j :: 0 <= i < j < |Report(total)| ==> Report(total)[i].0 != Report(total)[j].0
  {
    var ks := SortedKeys(total.Keys);
    var i :| 0 <= i < |ks| && ks[i] == k;
    assert Report(total)[i] == (k, total[k]);
    KeyOrder();
  }

  /** Every total `main` reports counts as many black passes as integer-keyed events. */
  lemma {:induction false} TotalsBalanced(files: seq<seq<string>>)
    ensures Totals(files).Ok? ==> Balanced(Totals(files).value)
  {
    if files != [] {
      TotalsBalanced(files[..|files| - 1]);
      IntTotalEmpty();
      ScanKeepsBalance(files[|files| - 1], None, map[]);
      if Totals(files).Ok? {
        MergeKeepsBalance(Totals(files[..|files| - 1]).value, Scan(files[|files| - 1], None, map[]).value);
      }
    } else {
      IntTotalEmpty();
    }
  }

  /** `main`: scans each file, adds its counter to the total, and lists the total. */
  method AnalyseFiles(files: seq<seq<string>>) returns (r: Result<seq<(Key, nat)>, Error>)
    ensures Totals(files).Err? ==> r == Err(Totals(files).error)
    ensures Totals(files).Ok? ==> r == Ok(Report(Totals(files).value))
  {
    var totalCount: Counter := map[];
    var i := 0;
    while i < |files|
      invariant 0 <= i <= |files|
      invariant Totals(files[..i]) == Ok(totalCount)
    {
      assert files[..i + 1][..i] == files[..i];
      var fileCount := FindEmptyBoard(files[i]);
      if fileCount.Err? {
        TotalsPrefixErr(files, i + 1);
        return Err(fileCount.error);
      }
      totalCount := Merge(totalCount, fileCount.value);
      i := i + 1;
    }
    assert files[..i] == files;
    var report := ListTotals(totalCount);
    return Ok(report);
  }

  /** The last loop of `main`: one line per key of the totals, in key order. */
  method ListTotals(total: Counter) returns (report: seq<(Key, nat)>)
    ensures report == Report(total)
  {
    var ks := SortedKeys(total.Keys);
    report := [];
    var j := 0;
    while j < |ks|
      invariant 0 <= j <= |ks|
      invariant report == Report(total)[..j]
    {
      report := report + [(ks[j], total[ks[j]])];
      j := j + 1;
    }
    assert report == Report(total)[..|ks|];
  }

  /** When every file scans, the totals are the merge of the per-file counters in file order. */
  lemma {:induction false} TotalsMergeAll(files: seq<seq<string>>, cs: seq<Counter>)
    requires |cs| == |files|
    requires forall i :: 0 <= i < |files| ==> Scan(files[i], None, map[]) == Ok(cs[i])
    ensures Totals(files) == Ok(MergeAll(cs))
    decreases |files|
  {
    if files != [] {
      var n := |files| - 1;
      assert forall i :: 0 <= i < n ==> files[..n][i] == files[i] && cs[..n][i] == cs[i];
      TotalsMergeAll(files[..n], cs[..n]);
    }
  }

  /** Files whose counters are the same multiset give the same totals, whatever their order. */
  lemma TotalsAnyOrder(files: seq<seq<string>>, cs: seq<Counter>, others: seq<seq<string>>, ds: seq<Counter>)
    requires |cs| == |files| && |ds| == |others|
    requires forall i :: 0 <= i < |files| ==> Scan(files[i], None, map[]) == Ok(cs[i])
    requires forall i :: 0 <= i < |others| ==> Scan(others[i], None, map[]) == Ok(ds[i])
    requires multiset(cs) == multiset(ds)
    ensures Totals(files) == Totals(others)
  {
    TotalsMergeAll(files, cs);
    TotalsMergeAll(others, ds);
    MergeAllPermutation(cs, ds);
  }

  /** A file that fails stops `main` with its error. */
  lemma {:induction false} TotalsPrefixErr(files: seq<seq<string>>, n: nat)
    requires 0 < n <= |files|
    requires Totals(files[..n - 1]).Ok? && Scan(files[n - 1], None, map[]).Err?
    ensures Totals(files).Err? && Totals(files).error == Scan(files[n - 1], None, map[]).error
    decreases |files|
  {
    if n == |files| {
      assert files[..|files| - 1] == files[..n - 1];
    } else {
      assert files[..|files| - 1][..n - 1] == files[..n - 1];
      assert files[..|files| - 1][n - 1] == files[n - 1];
      TotalsPrefixErr(files[..|files| - 1], n);
    }
  }
}
