/** The sample synthesizer: from one Java file it draws hole lines among the
    lines the classifier calls valid, cuts up to ten lines of context on each
    side, and emits fill-in-the-middle samples with the hole line as target. */
module Synthesizer {
  import opened Text
  import opened Outcome
  import opened LineClassifier
  import opened Samples

  /** Lines of context kept on each side of a hole; a file needs twice as
      many valid lines before any hole is drawn. */
  const MinContextLines: nat := 10
  /** The default number of holes drawn per file. */
  const MaxSamplesPerCode: nat := 3
  /** Repeats within one file are skipped. */
  const EnableDeduplication: bool := true

  /** The fixed instruction of a flat ("alpaca") sample. */
  const Instruction: string := "请根据前缀和后缀补全 Java 代码"

  /** The sentinel tokens that frame prefix, hole and suffix. */
  const FimBegin: string := "<｜fim▁begin｜>"
  const FimHole: string := "<｜fim▁hole｜>"
  const FimEnd: string := "<｜fim▁end｜>"

  const UnsupportedFormat: Error := ValueError("Unsupported format type")

  function Max(a: int, b: int): int { if a < b then b else a }
  function Min(a: int, b: int): int { if a < b then a else b }

  /** The lines of a file: the stripped text split at newlines. */
  function CodeLines(code: string): seq<string>
  {
    Split(Strip(code))
  }

  /** The up to `MinContextLines` lines right before line `h`. */
  function PrefixLines(lines: seq<string>, h: nat): seq<string>
    requires h < |lines|
  {
    lines[Max(0, h - MinContextLines)..h]
  }

  /** The up to `MinContextLines` lines right after line `h` (a Python slice
      past the end stops at the end). */
  function SuffixLines(lines: seq<string>, h: nat): seq<string>
    requires h < |lines|
  {
    lines[h + 1..Min(|lines|, h + 1 + MinContextLines)]
  }

  /** The prompt of a sample with hole `h`. */
  function FimInput(lines: seq<string>, h: nat): (r: string)
    requires h < |lines|
    ensures FimBegin + "\n" <= r
    ensures |r| > |FimEnd| && r[|r| - |FimEnd| - 1..] == "\n" + FimEnd
  {
    FimBegin + "\n" + Join(PrefixLines(lines, h)) + "\n" + FimHole + "\n"
      + Join(SuffixLines(lines, h)) + "\n" + FimEnd
  }

  /** The (input, output) pair of a sample with hole `h`. */
  function HoleContent(lines: seq<string>, h: nat): (string, string)
    requires h < |lines|
  {
    (FimInput(lines, h), lines[h])
  }

  /** Packs a prompt and its target into the requested shape; any other
      shape name is an error. */
  function Package(formatType: string, input: string, output: string): (r: Result<Sample>)
    ensures r.Ok? <==> formatType == "alpaca" || formatType == "sharegpt"
    ensures r.Err? ==> r.error == UnsupportedFormat
    ensures r.Ok? ==> Content(r.value) == (input, output) && Shaped(formatType, r.value)
  {
    if formatType == "alpaca" then Ok(Alpaca(Instruction, input, output))
    else if formatType == "sharegpt" then Ok(ShareGPT(input, output))
    else Err(UnsupportedFormat)
  }

  predicate HolesInRange(lines: seq<string>, holes: seq<nat>)
  {
    forall k :: 0 <= k < |holes| ==> holes[k] < |lines|
  }

  /** The (input, output) pairs of the holes drawn, in draw order. */
  function DrawnPairs(lines: seq<string>, holes: seq<nat>): seq<(string, string)>
    requires HolesInRange(lines, holes)
  {
    if holes == [] then []
    else DrawnPairs(lines, holes[..|holes| - 1]) + [HoleContent(lines, holes[|holes| - 1])]
  }

  /** The sampling loop over the pairs of the draws: a pair already emitted is
      skipped, otherwise it is packaged and appended. A packaging error ends
      the loop. */
  function Run(pairs: seq<(string, string)>, formatType: string): (r: Result<seq<Sample>>)
    ensures r.Err? ==> r.error == UnsupportedFormat
  {
    if pairs == [] then Ok([])
    else
      match Run(pairs[..|pairs| - 1], formatType)
      case Err(e) => Err(e)
      case Ok(samples) =>
        var content := pairs[|pairs| - 1];
        if EnableDeduplication && content in Contents(samples) then Ok(samples)
        else
          match Package(formatType, content.0, content.1)
          case Err(e) => Err(e)
          case Ok(sample) => Ok(samples + [sample])
  }

  /** One more draw adds its hole's pair at the end. */
  lemma DrawnPairsSnoc(lines: seq<string>, holes: seq<nat>, h: nat)
    requires HolesInRange(lines, holes) && h < |lines|
    ensures HolesInRange(lines, holes + [h])
    ensures DrawnPairs(lines, holes + [h]) == DrawnPairs(lines, holes) + [HoleContent(lines, h)]
  {
    assert (holes + [h])[..|holes|] == holes;
  }

  /** One more pair in the sampling loop: skipped when already emitted,
      otherwise packaged and appended. */
  lemma RunSnoc(pairs: seq<(string, string)>, c: (string, string), formatType: string)
    requires Run(pairs, formatType).Ok?
    ensures Run(pairs + [c], formatType) ==
      var samples := Run(pairs, formatType).value;
      if c in Contents(samples) then Ok(samples)
      else match Package(formatType, c.0, c.1)
        case Err(e) => Err(e)
        case Ok(sample) => Ok(samples + [sample])
  {
    assert (pairs + [c])[..|pairs|] == pairs;
  }

  /** How many holes are drawn: none when the file has fewer than
      `2 * MinContextLines` valid lines, else one per requested sample. */
  function Draws(validIndices: seq<nat>, numSamplesPerCode: int): nat
  {
    if |validIndices| < MinContextLines * 2 then 0 else Max(numSamplesPerCode, 0)
  }

  /** A sample has the shape the format names. */
  predicate Shaped(formatType: string, s: Sample)
  {
    if formatType == "alpaca" then s.Alpaca? && s.instruction == Instruction
    else formatType == "sharegpt" && s.ShareGPT?
  }

  /** The sampling loop fails exactly when at least one hole is drawn and the
      format is neither "alpaca" nor "sharegpt"; the failure is the
      unsupported-format error. */
  lemma {:induction false} RunFails(pairs: seq<(string, string)>, formatType: string)
    ensures Run(pairs, formatType).Err? <==>
            pairs != [] && formatType != "alpaca" && formatType != "sharegpt"
    ensures Run(pairs, formatType).Err? ==> Run(pairs, formatType).error == UnsupportedFormat
  {
    if pairs != [] {
      var init := pairs[..|pairs| - 1];
      RunFails(init, formatType);
      if init == [] {
        assert Run(init, formatType) == Ok([]);
        assert Contents([]) == {};
      }
    }
  }

  /** What a successful sampling loop emits: at most one sample per draw,
      at least one when anything was drawn (the first draw is never a
      repeat), in the requested shape, and no pair twice. */
  lemma {:induction false} RunEmits(pairs: seq<(string, string)>, formatType: string)
    requires Run(pairs, formatType).Ok?
    ensures var samples := Run(pairs, formatType).value;
      && |samples| <= |pairs|
      && (pairs != [] ==> |samples| >= 1)
      && DistinctContents(samples)
      && forall k :: 0 <= k < |samples| ==> Shaped(formatType, samples[k])
  {
    if pairs != [] {
      var init := pairs[..|pairs| - 1];
      var content := pairs[|pairs| - 1];
      assert init + [content] == pairs;
      RunSnoc(init, content, formatType);
      RunEmits(init, formatType);
      var prev := Run(init, formatType).value;
      if init == [] {
        assert Contents(prev) == {};
      }
      if content !in Contents(prev) {
        var sample := Package(formatType, content.0, content.1).value;
        var samples := prev + [sample];
        forall j, k | 0 <= j < k < |samples| ensures Content(samples[j]) != Content(samples[k]) {
          if k == |prev| {
            InContents(prev, Content(samples[j]));
          }
        }
      }
    }
  }

  /** The pairs a successful sampling loop emits are exactly the pairs of the
      draws: a repeated draw adds nothing and no draw is lost. */
  lemma {:induction false} RunKeys(pairs: seq<(string, string)>, formatType: string)
    requires Run(pairs, formatType).Ok?
    ensures forall c :: c in Contents(Run(pairs, formatType).value) <==> c in pairs
  {
    if pairs != [] {
      var init := pairs[..|pairs| - 1];
      var content := pairs[|pairs| - 1];
      assert init + [content] == pairs;
      RunSnoc(init, content, formatType);
      RunKeys(init, formatType);
      var prev := Run(init, formatType).value;
      assert forall c :: c in pairs <==> c in init || c == content;
      if content !in Contents(prev) {
        var sample := Package(formatType, content.0, content.1).value;
        ContentsSnoc(prev, sample);
      }
    }
  }

  /** The pair of draw `k` is the pair of hole `holes[k]`. */
  lemma {:induction false} DrawnPairAt(lines: seq<string>, holes: seq<nat>, k: nat)
    requires HolesInRange(lines, holes) && k < |holes|
    ensures |DrawnPairs(lines, holes)| == |holes|
    ensures DrawnPairs(lines, holes)[k] == HoleContent(lines, holes[k])
  {
    var init := holes[..|holes| - 1];
    if k < |init| {
      DrawnPairAt(lines, init, k);
    } else if init != [] {
      DrawnPairAt(lines, init, 0);
    }
  }

  /** Each prompt lays out, line by line, the begin sentinel, the lines
      before the hole (at most `MinContextLines`, fewer near the top of the
      file), the hole sentinel, the lines after the hole (at most
      `MinContextLines`, fewer near the end) and the end sentinel; an empty
      window shows as one empty line. The hole line itself is in neither
      window. */
  lemma FimInputLayout(lines: seq<string>, h: nat)
    requires h < |lines|
    requires forall k :: 0 <= k < |lines| ==> '\n' !in lines[k]
    ensures var before := Min(h, MinContextLines);
      var after := Min(|lines| - h - 1, MinContextLines);
      Split(FimInput(lines, h)) ==
        [FimBegin] + NonEmpty(lines[h - before..h]) + [FimHole]
          + NonEmpty(lines[h + 1..h + 1 + after]) + [FimEnd]
  {
    var p := PrefixLines(lines, h);
    var s := SuffixLines(lines, h);
    assert p == lines[h - Min(h, MinContextLines)..h];
    assert s == lines[h + 1..h + 1 + Min(|lines| - h - 1, MinContextLines)];
    assert forall k :: 0 <= k < |p| ==> '\n' !in p[k] by {
      forall k | 0 <= k < |p| ensures '\n' !in p[k] {
        assert p[k] == lines[Max(0, h - MinContextLines) + k];
      }
    }
    assert forall k :: 0 <= k < |s| ==> '\n' !in s[k] by {
      forall k | 0 <= k < |s| ensures '\n' !in s[k] {
        assert s[k] == lines[h + 1 + k];
      }
    }
    FramedLines(FimBegin, p, FimHole, s, FimEnd);
  }

  /** Three newline-free markers around two windows of newline-free lines,
      joined by newlines, split back into the markers and the windows. */
  lemma FramedLines(begin: string, p: seq<string>, hole: string, s: seq<string>, end: string)
    requires '\n' !in begin && '\n' !in hole && '\n' !in end
    requires forall k :: 0 <= k < |p| ==> '\n' !in p[k]
    requires forall k :: 0 <= k < |s| ==> '\n' !in s[k]
    ensures Split(begin + "\n" + Join(p) + "\n" + hole + "\n" + Join(s) + "\n" + end)
            == [begin] + NonEmpty(p) + [hole] + NonEmpty(s) + [end]
  {
    var r2 := Join(s) + "\n" + end;
    var r1 := hole + "\n" + r2;
    var r0 := Join(p) + "\n" + r1;
    SplitSingle(end);
    SplitWindow(s, end);
    SplitAfter(hole, r2);
    SplitWindow(p, r1);
    SplitAfter(begin, r0);
    var x1 := begin + "\n" + Join(p);
    var x2 := x1 + "\n" + hole;
    Regroup(x2, Join(s), end);
    Regroup(x1, hole, r2);
    Regroup(begin, Join(p), r1);
    var full := begin + "\n" + Join(p) + "\n" + hole + "\n" + Join(s) + "\n" + end;
    assert full == begin + "\n" + r0;
    assert Split(r1) == [hole] + (NonEmpty(s) + [end]);
    assert Split(full) == [begin] + (NonEmpty(p) + ([hole] + (NonEmpty(s) + [end])));
    AppendRegroup([begin], NonEmpty(p), [hole], NonEmpty(s), [end]);
  }

  /** Five lists appended, grouped to the right or to the left. */
  lemma AppendRegroup<T>(a: seq<T>, b: seq<T>, c: seq<T>, d: seq<T>, e: seq<T>)
    ensures a + (b + (c + (d + e))) == a + b + c + d + e
  {
  }

  /** A window of newline-free lines joined by newlines, then a newline and
      more text: the split yields the window's lines (one empty line for an
      empty window) followed by the split of the rest. */
  lemma {:induction false} SplitWindow(w: seq<string>, rest: string)
    requires forall k :: 0 <= k < |w| ==> '\n' !in w[k]
    ensures Split(Join(w) + "\n" + rest) == NonEmpty(w) + Split(rest)
  {
    if w == [] {
      SplitAfter("", rest);
    } else if |w| == 1 {
      SplitAfter(w[0], rest);
    } else {
      var tail := Join(w[1..]) + "\n" + rest;
      calc {
        Split(Join(w) + "\n" + rest);
      == { assert Join(w) + "\n" + rest == w[0] + "\n" + tail; }
        Split(w[0] + "\n" + tail);
      == { SplitAfter(w[0], tail); }
        [w[0]] + Split(tail);
      == { SplitWindow(w[1..], rest); }
        [w[0]] + (w[1..] + Split(rest));
      == { assert [w[0]] + w[1..] == w; }
        NonEmpty(w) + Split(rest);
      }
    }
  }

  /** A window, or one empty line standing for an empty window. */
  function NonEmpty(window: seq<string>): seq<string>
  {
    if window == [] then [""] else window
  }

  /** The first pass of `generate_code_completion_samples`: runs the
      classifier over the lines in order, threading the block-comment flag,
      and collects the indices of the valid lines. */
  method CollectValidIndices(lines: seq<string>) returns (validIndices: seq<nat>)
    ensures validIndices == ValidIndices(lines)
  {
    validIndices := [];
    var inBlockComment := false;
    for i := 0 to |lines|
      invariant (validIndices, inBlockComment) == Scan(lines[..i])
    {
      assert lines[..i + 1][..i] == lines[..i];
      var c := IsValidCodeLine(lines[i], inBlockComment);
      inBlockComment := c.inBlockComment;
      if c.valid {
        validIndices := validIndices + [i];
      }
    }
    assert lines[..|lines|] == lines;
  }

  /** The sampling loop of `generate_code_completion_samples`: draws up to
      `numSamplesPerCode` holes among the valid lines (none when fewer than
      `2 * MinContextLines` are valid) and emits one sample per draw whose
      pair was not emitted before. The draws are the arbitrary choices of
      `:|`; `holes` records them. */
  method DrawSamples(lines: seq<string>, validIndices: seq<nat>, numSamplesPerCode: int, formatType: string)
    returns (r: Result<seq<Sample>>, ghost holes: seq<nat>)
    requires forall k :: 0 <= k < |validIndices| ==> validIndices[k] < |lines|
    ensures |holes| <= Draws(validIndices, numSamplesPerCode)
    ensures r.Ok? ==> |holes| == Draws(validIndices, numSamplesPerCode)
    ensures forall h :: h in holes ==> h in validIndices
    ensures HolesInRange(lines, holes)
    ensures r == Run(DrawnPairs(lines, holes), formatType)
  {
    holes := [];
    var samples: seq<Sample> := [];
    var seen: set<(string, string)> := {};
    var n := 0;
    r := Ok([]);
    while n < numSamplesPerCode
      invariant 0 <= n <= Max(numSamplesPerCode, 0)
      invariant n > 0 ==> |validIndices| >= MinContextLines * 2
      invariant |holes| == n
      invariant forall h :: h in holes ==> h in validIndices
      invariant HolesInRange(lines, holes)
      invariant r == Ok(samples) == Run(DrawnPairs(lines, holes), formatType)
      invariant seen == Contents(samples)
    {
      if |validIndices| < MinContextLines * 2 {
        break;
      }
      var pick :| 0 <= pick < |validIndices|;
      var holeIndex := validIndices[pick];
      var inputText := FimInput(lines, holeIndex);
      var outputText := lines[holeIndex];
      var sampleKey := (inputText, outputText);
      ghost var pairs := DrawnPairs(lines, holes);
      DrawnPairsSnoc(lines, holes, holeIndex);
      RunSnoc(pairs, sampleKey, formatType);
      holes := holes + [holeIndex];
      n := n + 1;
      if EnableDeduplication && sampleKey in seen {
        continue;
      }
      seen := seen + {sampleKey};
      var sample: Sample;
      if formatType == "alpaca" {
        sample := Alpaca(Instruction, inputText, outputText);
      } else if formatType == "sharegpt" {
        sample := ShareGPT(inputText, outputText);
      } else {
        r := Err(UnsupportedFormat);
        break;
      }
      ContentsSnoc(samples, sample);
      samples := samples + [sample];
      r := Ok(samples);
    }
  }

  /** `generate_code_completion_samples`: splits the stripped text into
      lines, collects the valid ones, returns no samples when there are none,
      and otherwise runs the sampling loop. It fails exactly when holes are
      due under an unknown format; on success it returns at most
      `numSamplesPerCode` samples and at least one when holes are due, in the
      requested shape, with no pair twice, each the prompt and line of a
      drawn hole on a valid line. `holes` records the draws. The defaults are
      three samples in the flat shape. */
  method GenerateCodeCompletionSamples(code: string, numSamplesPerCode: int := MaxSamplesPerCode,
                                       formatType: string := "alpaca")
    returns (r: Result<seq<Sample>>, ghost holes: seq<nat>)
    ensures |holes| <= Draws(ValidIndices(CodeLines(code)), numSamplesPerCode)
    ensures r.Ok? ==> |holes| == Draws(ValidIndices(CodeLines(code)), numSamplesPerCode)
    ensures forall h :: h in holes ==> h in ValidIndices(CodeLines(code))
    ensures HolesInRange(CodeLines(code), holes)
    ensures r == Run(DrawnPairs(CodeLines(code), holes), formatType)
    ensures r.Err? <==> formatType != "alpaca" && formatType != "sharegpt"
                        && Draws(ValidIndices(CodeLines(code)), numSamplesPerCode) > 0
    ensures r.Err? ==> r.error == UnsupportedFormat
    ensures r.Ok? ==> |r.value| <= Max(numSamplesPerCode, 0) && DistinctContents(r.value)
    ensures r.Ok? && Draws(ValidIndices(CodeLines(code)), numSamplesPerCode) > 0 ==> |r.value| >= 1
    ensures r.Ok? ==> forall j :: 0 <= j < |r.value| ==> Shaped(formatType, r.value[j])
    ensures r.Ok? ==> forall j :: 0 <= j < |r.value| ==> FromValidHole(CodeLines(code), holes, r.value[j])
  {
    var lines := Split(Strip(code));
    var validIndices := CollectValidIndices(lines);
    if validIndices == [] {
      r, holes := Ok([]), [];
    } else {
      r, holes := DrawSamples(lines, validIndices, numSamplesPerCode, formatType);
    }
    GeneratedSamples(code, numSamplesPerCode, formatType, holes, r);
  }

  /** What one call of the synthesizer emits, from the contract of
      `GenerateCodeCompletionSamples` alone: an error exactly when holes are
      due and the format is unknown, and then the unsupported-format error; at
      most `numSamplesPerCode` samples and none
      for a file with fewer than `2 * MinContextLines` valid lines; no pair
      twice; and every sample is the prompt and line of some drawn hole, a
      line the classifier called valid in the state the scan reached it in. */
  lemma GeneratedSamples(code: string, numSamplesPerCode: int, formatType: string,
                         holes: seq<nat>, r: Result<seq<Sample>>)
    requires |holes| <= Draws(ValidIndices(CodeLines(code)), numSamplesPerCode)
    requires forall h :: h in holes ==> h in ValidIndices(CodeLines(code))
    requires HolesInRange(CodeLines(code), holes)
    requires r == Run(DrawnPairs(CodeLines(code), holes), formatType)
    requires r.Ok? ==> |holes| == Draws(ValidIndices(CodeLines(code)), numSamplesPerCode)
    ensures r.Err? <==> formatType != "alpaca" && formatType != "sharegpt"
                        && Draws(ValidIndices(CodeLines(code)), numSamplesPerCode) > 0
    ensures r.Err? ==> r.error == UnsupportedFormat
    ensures r.Ok? ==> |r.value| <= Max(numSamplesPerCode, 0)
    ensures r.Ok? && |ValidIndices(CodeLines(code))| < MinContextLines * 2 ==> r.value == []
    ensures r.Ok? && Draws(ValidIndices(CodeLines(code)), numSamplesPerCode) > 0 ==> |r.value| >= 1
    ensures r.Ok? ==> DistinctContents(r.value)
    ensures r.Ok? ==> forall j :: 0 <= j < |r.value| ==> Shaped(formatType, r.value[j])
    ensures r.Ok? ==> forall j :: 0 <= j < |r.value| ==> FromValidHole(CodeLines(code), holes, r.value[j])
  {
    var lines := CodeLines(code);
    var pairs := DrawnPairs(lines, holes);
    RunFails(pairs, formatType);
    if holes != [] {
      DrawnPairAt(lines, holes, 0);
    } else {
      assert pairs == [];
    }
    if r.Ok? {
      RunEmits(pairs, formatType);
      RunKeys(pairs, formatType);
      forall j | 0 <= j < |r.value| ensures FromValidHole(lines, holes, r.value[j]) {
        var c := Content(r.value[j]);
        InContents(r.value, c);
        assert c in pairs;
        var k :| 0 <= k < |pairs| && pairs[k] == c;
        DrawnPairAt(lines, holes, k);
        ValidIndicesExactly(lines, holes[k]);
      }
    }
  }

  /** The sample carries the prompt and line of some drawn hole, and the
      classifier called that line valid in the state the scan reached it in. */
  predicate FromValidHole(lines: seq<string>, holes: seq<nat>, s: Sample)
    requires HolesInRange(lines, holes)
  {
    exists k :: 0 <= k < |holes| && Content(s) == HoleContent(lines, holes[k])
      && IsValidCodeLine(lines[holes[k]], StateBefore(lines, holes[k])).valid
  }
}
