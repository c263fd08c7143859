/** Training samples and their deduplication: a stable filter that keeps the
    first sample with each (input, output) pair and drops every later one. */
module Samples {
  import opened Outcome

  /** A fill-in-the-middle sample in one of its two serialised shapes: the flat
      "alpaca" record (instruction, input, output) or the two-turn "sharegpt"
      conversation whose human turn holds the input and whose gpt turn holds
      the output. */
  datatype Sample =
    | Alpaca(instruction: string, input: string, output: string)
    | ShareGPT(humanValue: string, gptValue: string)

  /** The (input, output) text a sample carries, in either shape. */
  function Content(s: Sample): (string, string)
  {
    match s
    case Alpaca(_, input, output) => (input, output)
    case ShareGPT(human, gpt) => (human, gpt)
  }

  /** The (input, output) pairs of a list of samples. */
  function Contents(ss: seq<Sample>): set<(string, string)>
  {
    if ss == [] then {}
    else Contents(ss[..|ss| - 1]) + {Content(ss[|ss| - 1])}
  }

  /** A pair is among the contents exactly when some sample carries it. */
  lemma {:induction false} InContents(ss: seq<Sample>, c: (string, string))
    ensures c in Contents(ss) <==> exists k :: 0 <= k < |ss| && Content(ss[k]) == c
  {
    if ss != [] {
      var init := ss[..|ss| - 1];
      InContents(init, c);
      if exists k :: 0 <= k < |ss| && Content(ss[k]) == c {
        var k :| 0 <= k < |ss| && Content(ss[k]) == c;
        if k < |init| {
          assert Content(init[k]) == c;
        }
      }
    }
  }

  /** The contents of a list with one more sample. */
  lemma ContentsSnoc(ss: seq<Sample>, s: Sample)
    ensures Contents(ss + [s]) == Contents(ss) + {Content(s)}
  {
    assert (ss + [s])[..|ss|] == ss;
  }

  /** No two samples carry the same (input, output) pair. */
  predicate DistinctContents(ss: seq<Sample>)
  {
    forall j, k :: 0 <= j < k < |ss| ==> Content(ss[j]) != Content(ss[k])
  }

  /** Every sample is a flat record, so it has "input" and "output" fields to
      key on (a conversation record has neither). */
  predicate AllAlpaca(ss: seq<Sample>)
  {
    forall k :: 0 <= k < |ss| ==> ss[k].Alpaca?
  }

  /** Deduplication over flat records, one sample at a time: a sample is kept
      when no sample kept before it has its (input, output) pair. */
  function Dedup(ss: seq<Sample>): (r: seq<Sample>)
    requires AllAlpaca(ss)
    ensures AllAlpaca(r) && |r| <= |ss|
  {
    if ss == [] then []
    else
      var kept := Dedup(ss[..|ss| - 1]);
      var s := ss[|ss| - 1];
      if Content(s) in Contents(kept) then kept else kept + [s]
  }

  /** Deduplication keeps every (input, output) pair of its input and no
      pair twice. */
  lemma {:induction false} DedupContents(ss: seq<Sample>)
    requires AllAlpaca(ss)
    ensures Contents(Dedup(ss)) == Contents(ss)
    ensures DistinctContents(Dedup(ss))
  {
    if ss != [] {
      var init := ss[..|ss| - 1];
      var s := ss[|ss| - 1];
      var kept := Dedup(init);
      DedupContents(init);
      assert init + [s] == ss;
      ContentsSnoc(init, s);
      if Content(s) !in Contents(kept) {
        ContentsSnoc(kept, s);
        var r := kept + [s];
        forall j, k | 0 <= j < k < |r| ensures Content(r[j]) != Content(r[k]) {
          if k == |kept| {
            InContents(kept, Content(r[j]));
          }
        }
      }
    }
  }

  /** Sample `i` is the first one with its (input, output) pair. */
  predicate IsFirstOccurrence(ss: seq<Sample>, i: int)
    requires 0 <= i < |ss|
  {
    forall j :: 0 <= j < i ==> Content(ss[j]) != Content(ss[i])
  }

  /** The samples that are first occurrences, in their original order: an
      order-preserving filter of the input. */
  function FirstOccurrences(ss: seq<Sample>): seq<Sample>
  {
    if ss == [] then []
    else
      FirstOccurrences(ss[..|ss| - 1])
        + (if IsFirstOccurrence(ss, |ss| - 1) then [ss[|ss| - 1]] else [])
  }

  /** Deduplication is exactly the stable filter that keeps the first sample
      with each (input, output) pair. */
  lemma {:induction false} DedupKeepsFirstOccurrences(ss: seq<Sample>)
    requires AllAlpaca(ss)
    ensures Dedup(ss) == FirstOccurrences(ss)
  {
    if ss != [] {
      var init := ss[..|ss| - 1];
      var s := ss[|ss| - 1];
      DedupKeepsFirstOccurrences(init);
      DedupContents(init);
      InContents(init, Content(s));
      assert Content(s) in Contents(init) <==> !IsFirstOccurrence(ss, |ss| - 1) by {
        if Content(s) in Contents(init) {
          var k :| 0 <= k < |init| && Content(init[k]) == Content(s);
          assert Content(ss[k]) == Content(ss[|ss| - 1]);
        }
        if !IsFirstOccurrence(ss, |ss| - 1) {
          var j :| 0 <= j < |ss| - 1 && Content(ss[j]) == Content(ss[|ss| - 1]);
          assert Content(init[j]) == Content(s);
        }
      }
    }
  }

  /** A list whose pairs are already distinct is left as it is. */
  lemma {:induction false} DedupOfDistinct(ss: seq<Sample>)
    requires AllAlpaca(ss) && DistinctContents(ss)
    ensures Dedup(ss) == ss
  {
    if ss != [] {
      var init := ss[..|ss| - 1];
      var s := ss[|ss| - 1];
      assert DistinctContents(init);
      DedupOfDistinct(init);
      assert Content(s) !in Contents(init) by {
        InContents(init, Content(s));
        forall k | 0 <= k < |init| ensures Content(init[k]) != Content(s) {
          assert Content(ss[k]) != Content(ss[|ss| - 1]);
        }
      }
      assert init + [s] == ss;
    }
  }

  /** Deduplicating twice is deduplicating once. */
  lemma DedupIdempotent(ss: seq<Sample>)
    requires AllAlpaca(ss)
    ensures Dedup(Dedup(ss)) == Dedup(ss)
  {
    DedupContents(ss);
    DedupOfDistinct(Dedup(ss));
  }

  /** Deduplicating a running total, appending a new batch and deduplicating
      again gives the same list as deduplicating everything at once. */
  lemma {:induction false} DedupIncremental(a: seq<Sample>, b: seq<Sample>)
    requires AllAlpaca(a) && AllAlpaca(b)
    ensures AllAlpaca(Dedup(a) + b) && AllAlpaca(a + b)
    ensures Dedup(Dedup(a) + b) == Dedup(a + b)
  {
    var d := Dedup(a);
    assert AllAlpaca(d + b) && AllAlpaca(a + b);
    if b == [] {
      assert d + b == d && a + b == a;
      DedupIdempotent(a);
    } else {
      var init := b[..|b| - 1];
      var s := b[|b| - 1];
      DedupIncremental(a, init);
      assert (d + b)[..|d + b| - 1] == d + init;
      assert (a + b)[..|a + b| - 1] == a + init;
      assert (d + b)[|d + b| - 1] == s && (a + b)[|a + b| - 1] == s;
      assert Dedup(d + b) == (var kept := Dedup(d + init);
        if Content(s) in Contents(kept) then kept else kept + [s]);
      assert Dedup(a + b) == (var kept := Dedup(a + init);
        if Content(s) in Contents(kept) then kept else kept + [s]);
    }
  }

  /** All the batches one after the other. */
  function Concat(batches: seq<seq<Sample>>): seq<Sample>
  {
    if batches == [] then [] else Concat(batches[..|batches| - 1]) + batches[|batches| - 1]
  }

  predicate AllBatchesAlpaca(batches: seq<seq<Sample>>)
  {
    forall k :: 0 <= k < |batches| ==> AllAlpaca(batches[k])
  }

  /** The running total of the generation driver: after each file's batch it
      extends the total with the batch and deduplicates the result. */
  function ExtendAndDedup(batches: seq<seq<Sample>>): (r: seq<Sample>)
    requires AllBatchesAlpaca(batches)
    ensures AllAlpaca(r)
    ensures |r| <= |Concat(batches)|
  {
    if batches == [] then []
    else
      var total := ExtendAndDedup(batches[..|batches| - 1]);
      assert AllAlpaca(Dedup(total)) && AllAlpaca(batches[|batches| - 1]);
      Dedup(total + batches[|batches| - 1])
  }

  /** Deduplicating after every batch gives the same result as deduplicating
      once at the end. */
  lemma {:induction false} ExtendAndDedupIsDedupOfAll(batches: seq<seq<Sample>>)
    requires AllBatchesAlpaca(batches)
    ensures AllAlpaca(Concat(batches))
    ensures ExtendAndDedup(batches) == Dedup(Concat(batches))
  {
    if batches != [] {
      var init := batches[..|batches| - 1];
      var b := batches[|batches| - 1];
      ExtendAndDedupIsDedupOfAll(init);
      assert AllAlpaca(b);
      DedupIncremental(Concat(init), b);
    }
  }

  /** Deduplication as the pipeline runs it: reading the "input" and "output"
      fields of a conversation record fails with a missing-key error, and on
      flat records the result is the first occurrence of every pair, in order. */
  method DeduplicateSamples(samples: seq<Sample>) returns (r: Result<seq<Sample>>)
    ensures r.Err? <==> !AllAlpaca(samples)
    ensures r.Err? ==> r.error == KeyError("input")
    ensures r.Ok? ==> AllAlpaca(samples) && r.value == Dedup(samples)
  {
    var seen: set<(string, string)> := {};
    var unique: seq<Sample> := [];
    for i := 0 to |samples|
      invariant AllAlpaca(samples[..i])
      invariant unique == Dedup(samples[..i])
      invariant seen == Contents(unique)
    {
      var sample := samples[i];
      if !sample.Alpaca? {
        return Err(KeyError("input"));
      }
      var key := (sample.input, sample.output);
      assert samples[..i + 1][..i] == samples[..i];
      assert samples[..i + 1][i] == sample;
      if key !in seen {
        ContentsSnoc(unique, sample);
        seen := seen + {key};
        unique := unique + [sample];
      }
    }
    assert samples[..|samples|] == samples;
    return Ok(unique);
  }
}
