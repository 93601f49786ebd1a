/**
 * The hand-made weight file: a version line, then one line of numbers per
 * weight or batch-norm array of a network with an input convolution, one
 * residual block, a policy head and a value head. The script prints a
 * fixed sequence of string repetitions; `Lines` is that text and `Layout`
 * the token lists a weight-file reader splits it into.
 */
module CustomNetwork {
  import opened Text

  const ResidualFilters: nat := 2
  /** The number of residual blocks the script writes: one, at lines 44-51, whatever its block-count constant says. */
  const PrintedBlocks: nat := 1
  const InputPlanes: nat := 18

  /** A 3x3 kernel that passes its centre through: `0.1` around a `0.9`. */
  const Identity: string := "0.1 0.1 0.1 0.1 0.9 0.1 0.1 0.1 0.1"

  /** The tokens of `Identity`. */
  const IdentityKernel: seq<string> := ["0.1", "0.1", "0.1", "0.1", "0.9", "0.1", "0.1", "0.1", "0.1"]

  /**
   * The sizes the script writes as literals: the board's intersections,
   * the policy outputs (every intersection and the pass) and the width of
   * the value head's hidden layer.
   */
  datatype HeadSizes = HeadSizes(points: nat, moves: nat, hidden: nat)

  /** The sizes for the 19x19 board. */
  const Board19: HeadSizes := HeadSizes(361, 362, 256)

  /** The printed lines, each without the newline `print` adds: the version, then the network section by section. */
  function Lines(filters: nat, planes: nat, h: HeadSizes): (ls: seq<string>)
    ensures |ls| == 27
  {
    ["1"] + InputLines(filters, planes) + ResidualLines(filters) + PolicyLines(filters, h) + ValueLines(filters, h)
  }

  /** A convolution's lines: the weights line, then biases, batch-norm means and variances, `0.1` each. */
  function ConvLines(weights: string, filters: nat): (ls: seq<string>)
    ensures |ls| == 4
  {
    [weights,
     RepeatSeq("0.1 ", filters),
     RepeatSeq("0.1 ", filters),
     RepeatSeq("0.1 ", filters)]
  }

  /** The input convolution, from every input plane to every filter. */
  function InputLines(filters: nat, planes: nat): (ls: seq<string>)
    ensures |ls| == 4
  {
    ConvLines(RepeatSeq(RepeatSeq(Identity + " ", planes), filters), filters)
  }

  /** The residual layer: two filter-to-filter convolutions. */
  function ResidualLines(filters: nat): (ls: seq<string>)
    ensures |ls| == 8
  {
    ConvLines(RepeatSeq(Identity + " ", filters * filters), filters) +
    ConvLines(RepeatSeq(Identity + " ", filters * filters), filters)
  }

  /** The policy head: its 1x1 convolution with batch norm, then its fully connected layer. */
  function PolicyLines(filters: nat, h: HeadSizes): (ls: seq<string>)
    ensures |ls| == 6
  {
    [RepeatSeq(RepeatSeq("0.9 ", filters), 2),
     RepeatSeq("0.9 ", 2),
     RepeatSeq("0.1 ", 2),
     RepeatSeq("0.1 ", 2)] +
    [RepeatSeq(RepeatSeq(RepeatSeq("0.9 ", h.points), h.moves), 2),
     RepeatSeq("0.1 ", h.moves)]
  }

  /** The value head: its 1x1 convolution with batch norm, then its two fully connected layers. */
  function ValueLines(filters: nat, h: HeadSizes): (ls: seq<string>)
    ensures |ls| == 8
  {
    [RepeatSeq("0.9 ", filters),
     "0.1",
     "0.1",
     "0.1"] +
    [RepeatSeq(RepeatSeq(RepeatSeq("0.9 ", 1), h.points), h.hidden),
     RepeatSeq("0.1 ", h.hidden)] +
    [RepeatSeq(RepeatSeq(RepeatSeq("0.9 ", 1), h.hidden), 1),
     RepeatSeq("0.1", 1)]
  }

  /** The weight file the script writes. */
  function Script(): seq<string> {
    Lines(ResidualFilters, InputPlanes, Board19)
  }

  /** `n` copies of the token `w`. */
  function Fill(w: string, n: nat): (ws: seq<string>)
    ensures |ws| == n && forall i :: 0 <= i < n ==> ws[i] == w
  {
    RepeatOne(w, n);
    RepeatSeq([w], n)
  }

  /** A convolution's four arrays: `kernels` 3x3 identity kernels, then biases, means and variances. */
  function Convolution(kernels: nat, filters: nat): (ts: seq<seq<string>>)
    ensures |ts| == 4
  {
    [RepeatSeq(IdentityKernel, kernels), Fill("0.1", filters), Fill("0.1", filters), Fill("0.1", filters)]
  }

  /** The residual tower: two `filters`-to-`filters` convolutions per block. */
  function Tower(filters: nat, blocks: nat): (ts: seq<seq<string>>)
    ensures |ts| == 8 * blocks
  {
    if blocks == 0 then []
    else Convolution(filters * filters, filters) + Convolution(filters * filters, filters) + Tower(filters, blocks - 1)
  }

  /** Block `i` of the tower is two `filters`-to-`filters` convolutions. */
  lemma {:induction false} TowerBlock(filters: nat, blocks: nat, i: nat)
    requires i < blocks
    ensures Tower(filters, blocks)[8 * i .. 8 * i + 8]
         == Convolution(filters * filters, filters) + Convolution(filters * filters, filters)
  {
    var c := Convolution(filters * filters, filters);
    var rest := Tower(filters, blocks - 1);
    assert Tower(filters, blocks) == (c + c) + rest;
    if i > 0 {
      TowerBlock(filters, blocks - 1, i - 1);
      assert Tower(filters, blocks)[8 * i .. 8 * i + 8] == rest[8 * (i - 1) .. 8 * (i - 1) + 8];
    }
  }

  /** The policy head: 1x1 convolution to two planes, its batch norm, and the fully connected layer to every move. */
  function PolicyHead(filters: nat, h: HeadSizes): (ts: seq<seq<string>>)
    ensures |ts| == 6
  {
    [Fill("0.9", filters * 2), Fill("0.9", 2), Fill("0.1", 2), Fill("0.1", 2)] +
    [Fill("0.9", h.points * h.moves * 2), Fill("0.1", h.moves)]
  }

  /** The value head: 1x1 convolution to one plane, its batch norm, the hidden layer and the output. */
  function ValueHead(filters: nat, h: HeadSizes): (ts: seq<seq<string>>)
    ensures |ts| == 8
  {
    [Fill("0.9", filters), ["0.1"], ["0.1"], ["0.1"]] +
    [Fill("0.9", h.points * h.hidden), Fill("0.1", h.hidden)] +
    [Fill("0.9", h.hidden), ["0.1"]]
  }

  /**
   * The token lists of a weight file for a network with `blocks` residual
   * blocks: the version, the input convolution, the tower and both heads.
   */
  function Layout(filters: nat, planes: nat, blocks: nat, h: HeadSizes): (ts: seq<seq<string>>)
    ensures |ts| == 19 + 8 * blocks
  {
    [["1"]] + Convolution(planes * filters, filters) + Tower(filters, blocks) + PolicyHead(filters, h) + ValueHead(filters, h)
  }

  /**
   * The weights file in order: the version, the input convolution, then
   * block `i` of the tower at lines `5 + 8 * i` to `12 + 8 * i`, followed by
   * the two heads.
   */
  lemma LayoutSections(filters: nat, planes: nat, blocks: nat, h: HeadSizes, i: nat)
    requires i < blocks
    ensures Layout(filters, planes, blocks, h)[0] == ["1"]
    ensures Layout(filters, planes, blocks, h)[1..5] == Convolution(planes * filters, filters)
    ensures Layout(filters, planes, blocks, h)[5 + 8 * i .. 13 + 8 * i]
         == Convolution(filters * filters, filters) + Convolution(filters * filters, filters)
    ensures Layout(filters, planes, blocks, h)[5 + 8 * blocks ..] == PolicyHead(filters, h) + ValueHead(filters, h)
  {
    var ts := Layout(filters, planes, blocks, h);
    var t := Tower(filters, blocks);
    assert ts == ([["1"]] + Convolution(planes * filters, filters)) + t + (PolicyHead(filters, h) + ValueHead(filters, h));
    TowerBlock(filters, blocks, i);
    assert ts[5 + 8 * i .. 13 + 8 * i] == t[8 * i .. 8 * i + 8];
  }

  // -------------------------------------------------------------------
  // What a reader splits the printed lines into

  /** A printed line `(t + " ") * n` reads back as `n` copies of `t`. */
  lemma ReadFilled(unit: string, t: string, n: nat)
    requires IsWord(t) && unit == t + " "
    ensures Split(RepeatSeq(unit, n) + "\n") == Fill(t, n)
  {
    SplitTrailingSpace(RepeatSeq(unit, n), '\n');
    SplitRepeatedToken(t, n);
  }

  /** A printed line `(Spaced(u)) * n` reads back as `n` copies of the tokens `u`. */
  lemma ReadRepeated(u: seq<string>, n: nat)
    requires forall i :: 0 <= i < |u| ==> IsWord(u[i])
    ensures Split(RepeatSeq(Spaced(u), n) + "\n") == RepeatSeq(u, n)
  {
    RepeatSpaced(u, n);
    RepeatSeqAllWords(u, n);
    SplitTrailingSpace(RepeatSeq(Spaced(u), n), '\n');
    SplitSpaced(RepeatSeq(u, n));
  }

  /** `IDENTITY + " "` lays out the nine tokens of the kernel. */
  lemma IdentitySpaced()
    ensures Identity + " " == Spaced(IdentityKernel)
  {
    var f: seq<string> := ["0.1", "0.1", "0.1", "0.1"];
    assert IdentityKernel == f + (["0.9"] + f);
    QuarterSpaced();
    SpacedAppend(f, ["0.9"] + f);
    SpacedAppend(["0.9"], f);
    assert Spaced(["0.9"]) == "0.9 ";
    IdentityText();
  }

  lemma QuarterSpaced()
    ensures Spaced(["0.1", "0.1", "0.1", "0.1"]) == "0.1 0.1 0.1 0.1 "
  {
    var f: seq<string> := ["0.1", "0.1", "0.1", "0.1"];
    assert f[1..] == ["0.1", "0.1", "0.1"];
    assert f[1..][1..] == ["0.1", "0.1"];
    assert f[1..][1..][1..] == ["0.1"];
    assert Spaced(["0.1"]) == "0.1 ";
    assert Spaced(["0.1", "0.1"]) == "0.1 0.1 ";
    assert Spaced(["0.1", "0.1", "0.1"]) == "0.1 0.1 0.1 ";
  }

  /** The text of `IDENTITY`: four `0.1`, the centre `0.9`, four `0.1`. */
  lemma IdentityText()
    ensures Identity + " " == "0.1 0.1 0.1 0.1 " + ("0.9 " + "0.1 0.1 0.1 0.1 ")
  {
  }

  /** The weights the script writes are words: `0.1` and `0.9`. */
  lemma WeightsAreWords()
    ensures IsWord("0.1") && IsWord("0.9") && IsWord("1")
    ensures forall i :: 0 <= i < |IdentityKernel| ==> IsWord(IdentityKernel[i])
  {
    assert IsWord("0.1");
    assert IsWord("0.9");
  }

  /** A printed line `(IDENTITY + " ") * n` reads back as `n` identity kernels. */
  lemma ReadKernels(n: nat)
    ensures Split(RepeatSeq(Identity + " ", n) + "\n") == RepeatSeq(IdentityKernel, n)
  {
    IdentitySpaced();
    WeightsAreWords();
    ReadRepeated(IdentityKernel, n);
  }

  /** A printed token without a trailing blank reads back as itself. */
  lemma ReadSingle(t: string)
    requires IsWord(t)
    ensures Split(t + "\n") == [t]
  {
    SplitTrailingSpace(t, '\n');
    assert Spaced([t]) == t + " ";
    SplitSpaced([t]);
    SplitTrailingSpace(t, ' ');
  }

  // -------------------------------------------------------------------
  // The printed file against the layout

  /** What a reader gets from each printed line: `line.split()` of the line with its newline. */
  function Read(ls: seq<string>): (ts: seq<seq<string>>)
    ensures |ts| == |ls|
  {
    if ls == [] then [] else [Split(ls[0] + "\n")] + Read(ls[1..])
  }

  /** Reading a file is reading its parts. */
  lemma {:induction false} ReadAppend(a: seq<string>, b: seq<string>)
    ensures Read(a + b) == Read(a) + Read(b)
  {
    if a != [] {
      assert (a + b)[1..] == a[1..] + b;
      ReadAppend(a[1..], b);
    } else {
      assert a + b == b;
    }
  }

  /** Two lines read back line by line. */
  lemma Read2(a: string, b: string, ta: seq<string>, tb: seq<string>)
    requires Split(a + "\n") == ta && Split(b + "\n") == tb
    ensures Read([a, b]) == [ta, tb]
  {
    assert [a, b][1..] == [b];
    assert [b][1..] == [];
    assert Read([b]) == [tb];
  }

  /** Four lines read back line by line. */
  lemma Read4(a: string, b: string, c: string, d: string,
              ta: seq<string>, tb: seq<string>, tc: seq<string>, td: seq<string>)
    requires Split(a + "\n") == ta && Split(b + "\n") == tb
    requires Split(c + "\n") == tc && Split(d + "\n") == td
    ensures Read([a, b, c, d]) == [ta, tb, tc, td]
  {
    Read2(c, d, tc, td);
    assert [b, c, d][1..] == [c, d];
    assert Read([b, c, d]) == [tb, tc, td];
    assert [a, b, c, d][1..] == [b, c, d];
  }

  /** The version line reads back as the single token `1`. */
  lemma ReadVersion()
    ensures Read(["1"]) == [["1"]]
  {
    WeightsAreWords();
    ReadSingle("1");
  }

  /** A convolution's lines read back as its arrays, given that its weights line reads back as `kernels` kernels. */
  lemma ReadConvolution(weights: string, kernels: nat, f: nat)
    requires Split(weights + "\n") == RepeatSeq(IdentityKernel, kernels)
    ensures Read(ConvLines(weights, f)) == Convolution(kernels, f)
  {
    WeightsAreWords();
    var b := RepeatSeq("0.1 ", f);
    ReadFilled("0.1 ", "0.1", f);
    Read4(weights, b, b, b, RepeatSeq(IdentityKernel, kernels), Fill("0.1", f), Fill("0.1", f), Fill("0.1", f));
  }

  /** The input-convolution lines read back as `planes * filters` kernels and three arrays of `filters` biases or statistics. */
  lemma ReadInput(f: nat, p: nat)
    ensures Read(InputLines(f, p)) == Convolution(p * f, f)
  {
    RepeatSeqMul(Identity + " ", p, f);
    ReadKernels(p * f);
    ReadConvolution(RepeatSeq(RepeatSeq(Identity + " ", p), f), p * f, f);
  }

  /** The residual lines read back as the tower of one block. */
  lemma ReadResidual(f: nat)
    ensures Read(ResidualLines(f)) == Tower(f, 1)
  {
    var w := RepeatSeq(Identity + " ", f * f);
    ReadKernels(f * f);
    ReadConvolution(w, f * f, f);
    ReadAppend(ConvLines(w, f), ConvLines(w, f));
    assert Tower(f, 0) == [];
  }

  /** The policy-head lines read back as the policy head's arrays. */
  lemma ReadPolicy(f: nat, h: HeadSizes)
    ensures Read(PolicyLines(f, h)) == PolicyHead(f, h)
  {
    WeightsAreWords();
    RepeatSeqMul("0.9 ", f, 2);
    ReadFilled("0.9 ", "0.9", f * 2);
    ReadFilled("0.9 ", "0.9", 2);
    ReadFilled("0.1 ", "0.1", 2);
    Read4(RepeatSeq(RepeatSeq("0.9 ", f), 2), RepeatSeq("0.9 ", 2), RepeatSeq("0.1 ", 2), RepeatSeq("0.1 ", 2),
          Fill("0.9", f * 2), Fill("0.9", 2), Fill("0.1", 2), Fill("0.1", 2));
    ReadPolicyLayer(h);
    ReadAppend(
      [RepeatSeq(RepeatSeq("0.9 ", f), 2), RepeatSeq("0.9 ", 2), RepeatSeq("0.1 ", 2), RepeatSeq("0.1 ", 2)],
      [RepeatSeq(RepeatSeq(RepeatSeq("0.9 ", h.points), h.moves), 2), RepeatSeq("0.1 ", h.moves)]);
  }

  /** The policy head's fully connected layer: `2 * points` inputs to `moves` outputs, and the biases. */
  lemma ReadPolicyLayer(h: HeadSizes)
    ensures Read([RepeatSeq(RepeatSeq(RepeatSeq("0.9 ", h.points), h.moves), 2), RepeatSeq("0.1 ", h.moves)])
      == [Fill("0.9", h.points * h.moves * 2), Fill("0.1", h.moves)]
  {
    WeightsAreWords();
    RepeatSeqMul("0.9 ", h.points, h.moves);
    RepeatSeqMul("0.9 ", h.points * h.moves, 2);
    ReadFilled("0.9 ", "0.9", h.points * h.moves * 2);
    ReadFilled("0.1 ", "0.1", h.moves);
    Read2(RepeatSeq(RepeatSeq(RepeatSeq("0.9 ", h.points), h.moves), 2), RepeatSeq("0.1 ", h.moves),
          Fill("0.9", h.points * h.moves * 2), Fill("0.1", h.moves));
  }

  /** The value-head lines read back as the value head's arrays. */
  lemma ReadValue(f: nat, h: HeadSizes)
    ensures Read(ValueLines(f, h)) == ValueHead(f, h)
  {
    var conv := [RepeatSeq("0.9 ", f), "0.1", "0.1", "0.1"];
    var hidden := [RepeatSeq(RepeatSeq(RepeatSeq("0.9 ", 1), h.points), h.hidden), RepeatSeq("0.1 ", h.hidden)];
    var out := [RepeatSeq(RepeatSeq(RepeatSeq("0.9 ", 1), h.hidden), 1), RepeatSeq("0.1", 1)];
    WeightsAreWords();
    ReadFilled("0.9 ", "0.9", f);
    ReadSingle("0.1");
    Read4(RepeatSeq("0.9 ", f), "0.1", "0.1", "0.1", Fill("0.9", f), ["0.1"], ["0.1"], ["0.1"]);
    ReadValueHidden(h);
    ReadValueOutput(h);
    ReadAppend(conv, hidden);
    ReadAppend(conv + hidden, out);
  }

  /** The value head's hidden layer: `points` inputs to `hidden` units, and the biases. */
  lemma ReadValueHidden(h: HeadSizes)
    ensures Read([RepeatSeq(RepeatSeq(RepeatSeq("0.9 ", 1), h.points), h.hidden), RepeatSeq("0.1 ", h.hidden)])
      == [Fill("0.9", h.points * h.hidden), Fill("0.1", h.hidden)]
  {
    WeightsAreWords();
    RepeatSeqMul("0.9 ", 1, h.points);
    RepeatSeqMul("0.9 ", h.points, h.hidden);
    ReadFilled("0.9 ", "0.9", h.points * h.hidden);
    ReadFilled("0.1 ", "0.1", h.hidden);
    Read2(RepeatSeq(RepeatSeq(RepeatSeq("0.9 ", 1), h.points), h.hidden), RepeatSeq("0.1 ", h.hidden),
          Fill("0.9", h.points * h.hidden), Fill("0.1", h.hidden));
  }

  /** The value head's output layer: `hidden` units to one output, and its bias. */
  lemma ReadValueOutput(h: HeadSizes)
    ensures Read([RepeatSeq(RepeatSeq(RepeatSeq("0.9 ", 1), h.hidden), 1), RepeatSeq("0.1", 1)])
      == [Fill("0.9", h.hidden), ["0.1"]]
  {
    WeightsAreWords();
    RepeatSeqMul("0.9 ", 1, h.hidden);
    RepeatSeqMul("0.9 ", h.hidden, 1);
    ReadFilled("0.9 ", "0.9", h.hidden);
    assert RepeatSeq("0.1", 1) == "0.1";
    ReadSingle("0.1");
    Read2(RepeatSeq(RepeatSeq(RepeatSeq("0.9 ", 1), h.hidden), 1), RepeatSeq("0.1", 1),
          Fill("0.9", h.hidden), ["0.1"]);
  }


  /**
   * The printed file reads back as the layout of a one-block network, for
   * every filter, plane and head size: `RESIDUAL_BLOCKS` is never consulted.
   */
  lemma ReadLines(f: nat, p: nat, h: HeadSizes)
    ensures Read(Lines(f, p, h)) == Layout(f, p, PrintedBlocks, h)
  {
    var v := ["1"];
    var i := InputLines(f, p);
    var r := ResidualLines(f);
    var a := PolicyLines(f, h);
    var b := ValueLines(f, h);
    ReadAppend(v, i);
    ReadAppend(v + i, r);
    ReadAppend(v + i + r, a);
    ReadAppend(v + i + r + a, b);
    ReadVersion();
    ReadInput(f, p);
    ReadResidual(f);
    ReadPolicy(f, h);
    ReadValue(f, h);
  }

  // -------------------------------------------------------------------
  // Sizes and contents of the arrays

  /** The number of tokens on each line. */
  function Sizes(ts: seq<seq<string>>): (ns: seq<int>)
    ensures |ns| == |ts|
  {
    seq(|ts|, i requires 0 <= i < |ts| => |ts[i]|)
  }

  lemma SizesAppend(a: seq<seq<string>>, b: seq<seq<string>>)
    ensures Sizes(a + b) == Sizes(a) + Sizes(b)
  {
    assert forall i :: |a| <= i < |a| + |b| ==> (a + b)[i] == b[i - |a|];
  }

  /**
   * The array sizes of a one-block network, layer by layer: a 3x3
   * convolution from `i` to `o` channels has `9 * (i * o)` weights and `o`
   * biases, means and variances; the policy head maps `f` channels to 2 and
   * then `points * 2` inputs to `moves` outputs; the value head maps `f`
   * channels to 1, `points` inputs to `hidden` units and those to one output.
   */
  function ArraySizes(f: nat, p: nat, h: HeadSizes): seq<int> {
    [1] +
    [9 * (p * f), f, f, f] +
    ([9 * (f * f), f, f, f] + [9 * (f * f), f, f, f]) +
    ([f * 2, 2, 2, 2] + [h.points * h.moves * 2, h.moves]) +
    ([f, 1, 1, 1] + [h.points * h.hidden, h.hidden] + [h.hidden, 1])
  }

  /** A convolution of `k` kernels has `9 * k` weights and `f` of each other array. */
  lemma ConvolutionSizes(k: nat, f: nat)
    ensures Sizes(Convolution(k, f)) == [9 * k, f, f, f]
  {
  }

  /** A one-block tower's sizes: two filter-to-filter convolutions. */
  lemma TowerSizes(f: nat)
    ensures Sizes(Tower(f, 1)) == [9 * (f * f), f, f, f] + [9 * (f * f), f, f, f]
  {
    var c := Convolution(f * f, f);
    assert Tower(f, 1) == c + c;
    SizesAppend(c, c);
    ConvolutionSizes(f * f, f);
  }

  /** The policy head's sizes. */
  lemma PolicySizes(f: nat, h: HeadSizes)
    ensures Sizes(PolicyHead(f, h)) == [f * 2, 2, 2, 2] + [h.points * h.moves * 2, h.moves]
  {
  }

  /** The value head's sizes. */
  lemma ValueSizes(f: nat, h: HeadSizes)
    ensures Sizes(ValueHead(f, h)) == [f, 1, 1, 1] + [h.points * h.hidden, h.hidden] + [h.hidden, 1]
  {
  }

  /** Every array of the file the script writes has the size the network needs. */
  lemma LayoutSizes(f: nat, p: nat, h: HeadSizes)
    ensures Sizes(Layout(f, p, PrintedBlocks, h)) == ArraySizes(f, p, h)
  {
    var v, i, t := [["1"]], Convolution(p * f, f), Tower(f, 1);
    var pol, val := PolicyHead(f, h), ValueHead(f, h);
    SizesAppend(v, i);
    SizesAppend(v + i, t);
    SizesAppend(v + i + t, pol);
    SizesAppend(v + i + t + pol, val);
    ConvolutionSizes(p * f, f);
    TowerSizes(f);
    PolicySizes(f, h);
    ValueSizes(f, h);
    assert Sizes(v) == [1];
  }

  /** The sizes for the script's own constants. */
  lemma ScriptSizes()
    ensures ArraySizes(ResidualFilters, InputPlanes, Board19) == [
      1, 324, 2, 2, 2, 36, 2, 2, 2, 36, 2, 2, 2,
      4, 2, 2, 2, 261364, 362,
      2, 1, 1, 1, 92416, 256, 256, 1]
  {
  }

  /** Copy `g` of `ws` in `ws * n` holds `ws` itself. */
  lemma {:induction false} RepeatAt<T>(ws: seq<T>, n: nat, g: nat, j: nat)
    requires g < n && j < |ws|
    ensures |ws| * g + j < |RepeatSeq(ws, n)| && RepeatSeq(ws, n)[|ws| * g + j] == ws[j]
  {
    if g > 0 {
      RepeatAt(ws, n - 1, g - 1, j);
      assert |ws| * g + j == |ws| + (|ws| * (g - 1) + j);
    }
  }

  /** Each 9-token kernel of a weights line of identity kernels is `0.1` four times, `0.9`, `0.1` four times. */
  lemma KernelTokens(n: nat, g: nat, j: nat)
    requires g < n && j < 9
    ensures RepeatSeq(IdentityKernel, n)[9 * g + j] == (if j == 4 then "0.9" else "0.1")
  {
    RepeatAt(IdentityKernel, n, g, j);
  }
}
