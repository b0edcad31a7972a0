/** Chat126: the text generator. It builds a model of order k from the
    input, starts from the input's first k characters, and T - k times
    predicts a character from the last k characters written, writes it, and
    slides the window on by one. The uniform draws the predictions consume
    are a parameter, one per step. */
module Chat {
  import opened Kgrams
  import opened Markov

  /** Every draw lies in [0, 1), as StdRandom.uniform's do. */
  predicate Uniform(draws: seq<real>) {
    forall j | 0 <= j < |draws| :: 0.0 <= draws[j] < 1.0
  }

  /** The range of a Java int: T is parsed into one, and k, an order the
      model accepted, is a non-negative one. */
  const IntMin := -0x8000_0000
  const IntMax := 0x7FFF_FFFF

  predicate IsInt(x: int) {
    IntMin <= x <= IntMax
  }

  /** Java's int arithmetic: x brought back into range by adding or
      subtracting 2^32. */
  function Wrapped(x: int): (w: int)
    ensures IsInt(w)
    ensures IsInt(x) ==> w == x
    ensures IntMin - 0x1_0000_0000 <= x < IntMin ==> w == x + 0x1_0000_0000
    decreases if x < IntMin then IntMin - x else if x > IntMax then x - IntMax else 0
  {
    if x < IntMin then Wrapped(x + 0x1_0000_0000)
    else if x > IntMax then Wrapped(x - 0x1_0000_0000)
    else x
  }

  /** Wrapping keeps the value modulo 2^32, the definition of Java's
      int arithmetic. */
  lemma {:induction false} WrappedCongruent(x: int)
    ensures (Wrapped(x) - x) % 0x1_0000_0000 == 0
    decreases if x < IntMin then IntMin - x else if x > IntMax then x - IntMax else 0
  {
    if x < IntMin {
      WrappedCongruent(x + 0x1_0000_0000);
    } else if x > IntMax {
      WrappedCongruent(x - 0x1_0000_0000);
    }
  }

  /** The number of characters predicted for T requested: the loop runs
      while i < T - k, where T - k is computed in int arithmetic. It is
      T - k when T > k, none when T <= k, and T - k + 2^32 when the
      subtraction overflows below the least int. */
  function Steps(t: int, k: nat): (n: nat)
    requires IsInt(t) && k <= IntMax
    ensures IntMin <= t - k ==> (t > k ==> k + n == t) && (t <= k ==> n == 0)
    ensures t - k < IntMin ==> n == t - k + 0x1_0000_0000 && 0 < n <= IntMax
  {
    var bound := Wrapped(t - k);
    if bound > 0 then bound else 0
  }

  /** With T = -2^31 and k = 1 the subtraction wraps, and the program
      predicts 2^31 - 1 characters instead of none. */
  lemma StepsWrap()
    ensures Steps(IntMin, 1) == IntMax
  {
  }

  /** Every draw of a prefix is a draw. */
  lemma UniformPrefix(draws: seq<real>, n: nat)
    requires Uniform(draws) && n <= |draws|
    ensures Uniform(draws[..n])
  {
    forall j | 0 <= j < n
      ensures 0.0 <= draws[..n][j] < 1.0
    {
      assert draws[..n][j] == draws[j];
    }
  }

  /** The text written after one draw per step, starting from `seed`: each
      step samples a character for the last k characters written and
      appends it. A window that does not occur in the text stops the walk
      with predictNext's exception. */
  function Walk(text: string, k: nat, seed: string, draws: seq<real>): (r: Result<string>)
    requires WellFormed(text, k) && |seed| == k && Uniform(draws)
    ensures r.Ok? ==> |r.value| == k + |draws| && r.value[..k] == seed
    ensures r.Err? ==> r.error == UnknownKgram
    decreases |draws|
  {
    if draws == [] then Ok(seed)
    else
      var n := |draws| - 1;
      UniformPrefix(draws, n);
      var before := Walk(text, k, seed, draws[..n]);
      if before.Err? then before
      else
        var s := before.value;
        var window := s[n..];
        if window !in Build(text, k).counts then Err(UnknownKgram)
        else
          var written := s + [Sample(text, k, window, draws[n])];
          assert written[..k] == s[..k];
          Ok(written)
  }

  /** What the program writes for text `file`, order k and T = t: the
      first k characters of the file, then one predicted character per
      step. */
  function Generated(file: string, k: nat, t: int, draws: seq<real>): (r: Result<string>)
    requires WellFormed(file, k) && IsInt(t) && k <= IntMax
    requires Uniform(draws) && Steps(t, k) <= |draws|
    ensures r.Ok? ==> |r.value| == k + Steps(t, k) && r.value[..k] == file[..k]
    ensures r.Err? ==> r.error == UnknownKgram
  {
    UniformPrefix(draws, Steps(t, k));
    Walk(file, k, file[..k], draws[..Steps(t, k)])
  }

  /** From a seed that occurs in the text the walk never gets stuck: each
      predicted character followed its window somewhere, so the next window
      occurs as well. */
  lemma {:induction false} WalkDefined(text: string, k: nat, seed: string, draws: seq<real>)
    requires WellFormed(text, k) && |seed| == k && Uniform(draws)
    requires seed in Build(text, k).counts
    ensures var r := Walk(text, k, seed, draws);
            r.Ok? && r.value[|draws|..] in Build(text, k).counts
    decreases |draws|
  {
    if draws != [] {
      var n := |draws| - 1;
      UniformPrefix(draws, n);
      WalkDefined(text, k, seed, draws[..n]);
      var s := Walk(text, k, seed, draws[..n]).value;
      WalkStep(text, k, seed, draws, n, s);
      assert draws[..n + 1] == draws;
      var c := Sample(text, k, s[n..], draws[n]);
      SampleKeepsWindow(text, k, s[n..], draws[n]);
      SlideWindow(s, n, c);
    }
  }

  /** From a seed that never occurs, the first prediction throws. */
  lemma {:induction false} WalkStuck(text: string, k: nat, seed: string, draws: seq<real>)
    requires WellFormed(text, k) && |seed| == k && Uniform(draws)
    requires seed !in Build(text, k).counts && draws != []
    ensures Walk(text, k, seed, draws).Err?
    decreases |draws|
  {
    var n := |draws| - 1;
    UniformPrefix(draws, n);
    if n > 0 {
      WalkStuck(text, k, seed, draws[..n]);
    } else {
      assert seed[0..] == seed;
    }
  }

  /** Once the walk has thrown, more draws do not bring it back. */
  lemma {:induction false} WalkStuckAfter(text: string, k: nat, seed: string, draws: seq<real>, j: nat)
    requires WellFormed(text, k) && |seed| == k && Uniform(draws) && j <= |draws|
    requires Uniform(draws[..j]) && Walk(text, k, seed, draws[..j]).Err?
    ensures Walk(text, k, seed, draws).Err?
    decreases |draws|
  {
    if j == |draws| {
      assert draws[..j] == draws;
    } else {
      var n := |draws| - 1;
      UniformPrefix(draws, n);
      assert draws[..n][..j] == draws[..j];
      WalkStuckAfter(text, k, seed, draws[..n], j);
    }
  }

  /** One more draw after a window that occurs appends its sample. */
  lemma WalkStep(text: string, k: nat, seed: string, draws: seq<real>, i: nat, s: string)
    requires WellFormed(text, k) && |seed| == k && Uniform(draws) && i < |draws|
    requires Uniform(draws[..i]) && Walk(text, k, seed, draws[..i]) == Ok(s)
    requires s[i..] in Build(text, k).counts
    ensures Uniform(draws[..i + 1])
    ensures Walk(text, k, seed, draws[..i + 1]) == Ok(s + [Sample(text, k, s[i..], draws[i])])
  {
    UniformPrefix(draws, i + 1);
    assert draws[..i + 1][..i] == draws[..i] && draws[..i + 1][i] == draws[i];
  }

  /** One more draw after a window that does not occur throws. */
  lemma WalkStepStuck(text: string, k: nat, seed: string, draws: seq<real>, i: nat, s: string)
    requires WellFormed(text, k) && |seed| == k && Uniform(draws) && i < |draws|
    requires Uniform(draws[..i]) && Walk(text, k, seed, draws[..i]) == Ok(s)
    requires s[i..] !in Build(text, k).counts
    ensures Uniform(draws[..i + 1])
    ensures Walk(text, k, seed, draws[..i + 1]) == Err(UnknownKgram)
  {
    UniformPrefix(draws, i + 1);
    assert draws[..i + 1][..i] == draws[..i];
  }

  /** Every character of s after the first k followed the k characters
      before it somewhere in the circular text. */
  ghost predicate Feasible(text: string, k: nat, s: string)
    requires WellFormed(text, k)
  {
    forall i | k <= i < |s| :: Follows(text, k, |text|, s[i - k..i], s[i]) != {}
  }

  /** Appending a character that followed the last k characters keeps the
      text feasible. */
  lemma FeasibleAppend(text: string, k: nat, s: string, c: char)
    requires WellFormed(text, k) && Feasible(text, k, s) && k <= |s|
    requires Follows(text, k, |text|, s[|s| - k..], c) != {}
    ensures Feasible(text, k, s + [c])
  {
    var s' := s + [c];
    forall i | k <= i < |s'|
      ensures Follows(text, k, |text|, s'[i - k..i], s'[i]) != {}
    {
      if i < |s| {
        assert s'[i - k..i] == s[i - k..i] && s'[i] == s[i];
      } else {
        assert s'[i - k..i] == s[|s| - k..] && s'[i] == c;
      }
    }
  }

  /** Every character written after the seed followed the k characters
      before it somewhere in the circular text. */
  lemma {:induction false} WalkFollows(text: string, k: nat, seed: string, draws: seq<real>)
    requires WellFormed(text, k) && |seed| == k && Uniform(draws)
    requires Walk(text, k, seed, draws).Ok?
    ensures Feasible(text, k, Walk(text, k, seed, draws).value)
    decreases |draws|
  {
    if draws != [] {
      var n := |draws| - 1;
      UniformPrefix(draws, n);
      assert draws[..n + 1] == draws;
      var before := Walk(text, k, seed, draws[..n]);
      assert before.Ok?;
      WalkFollows(text, k, seed, draws[..n]);
      WalkStep(text, k, seed, draws, n, before.value);
      var window := before.value[n..];
      FeasibleAppend(text, k, before.value, Sample(text, k, window, draws[n]));
    }
  }

  /** The generated text: it fails exactly when the file is empty and the
      loop runs at least once; otherwise it holds k + Steps(T, k)
      characters, starts with the file's first k, and every later
      character followed the k before it somewhere in the circular file. */
  lemma GeneratedText(file: string, k: nat, t: int, draws: seq<real>)
    requires WellFormed(file, k) && IsInt(t) && k <= IntMax
    requires Uniform(draws) && Steps(t, k) <= |draws|
    ensures var r := Generated(file, k, t, draws);
            && (r.Err? <==> |file| == 0 && Steps(t, k) > 0)
            && (r.Err? ==> r.error == UnknownKgram)
            && (r.Ok? ==> |r.value| == k + Steps(t, k) && r.value[..k] == file[..k])
            && (r.Ok? ==> Feasible(file, k, r.value))
  {
    var n := Steps(t, k);
    var seed, used := file[..k], draws[..n];
    UniformPrefix(draws, n);
    ScanPositions(file, k, |file|, seed);
    if |file| > 0 {
      SeedOccurs(file, k);
      WalkDefined(file, k, seed, used);
      WalkFollows(file, k, seed, used);
    } else if n > 0 {
      EmptyTextStoresNothing(file, k, seed);
      WalkStuck(file, k, seed, used);
    }
  }

  /** Appending c and then dropping the first character of the window
      s[i..] leaves the window that starts one further on. */
  lemma SlideWindow(s: string, i: nat, c: char)
    requires i <= |s|
    ensures (s + [c])[i + 1..] == (s[i..] + [c])[1..]
  {
    assert |(s + [c])[i + 1..]| == |(s[i..] + [c])[1..]|;
    forall j | 0 <= j < |(s + [c])[i + 1..]|
      ensures (s + [c])[i + 1..][j] == (s[i..] + [c])[1..][j]
    {
      assert (s + [c])[i + 1..][j] == (s + [c])[i + 1 + j];
    }
  }

  /** Every character of s is ASCII. */
  predicate AsciiOnly(s: string) {
    forall j | 0 <= j < |s| :: s[j] as int < Ascii
  }

  lemma AsciiAppend(s: string, c: char)
    requires AsciiOnly(s) && c as int < Ascii
    ensures AsciiOnly(s + [c])
  {
    forall j | 0 <= j < |s + [c]|
      ensures (s + [c])[j] as int < Ascii
    {
      if j < |s| {
        assert (s + [c])[j] == s[j];
      }
    }
  }

  /** Java's length of an ASCII window is its number of characters. */
  lemma AsciiSuffix(s: string, i: nat)
    requires AsciiOnly(s) && i <= |s|
    ensures Utf16Length(s[i..]) == |s[i..]|
  {
    forall j | 0 <= j < |s[i..]|
      ensures s[i..][j] as int < 0x1_0000
    {
      assert s[i..][j] == s[i + j];
    }
  }

  /** A window that does not occur makes the next step throw. */
  lemma WalkStuckNext(file: string, k: nat, draws: seq<real>, n: nat, i: nat, output: string)
    requires WellFormed(file, k) && Uniform(draws) && i < n <= |draws| && |output| == k + i
    requires Uniform(draws[..i]) && Walk(file, k, file[..k], draws[..i]) == Ok(output)
    requires output[i..] !in Build(file, k).counts
    ensures Uniform(draws[..i + 1]) && Walk(file, k, file[..k], draws[..i + 1]).Err?
  {
    WalkStepStuck(file, k, file[..k], draws, i, output);
  }

  /** A walk that has thrown within its first n draws has thrown for all n. */
  lemma WalkStuckWithin(file: string, k: nat, draws: seq<real>, n: nat, i: nat)
    requires WellFormed(file, k) && Uniform(draws) && i < n <= |draws|
    requires Uniform(draws[..i + 1]) && Walk(file, k, file[..k], draws[..i + 1]).Err?
    ensures Uniform(draws[..n]) && Walk(file, k, file[..k], draws[..n]).Err?
  {
    UniformPrefix(draws, n);
    assert draws[..n][..i + 1] == draws[..i + 1];
    WalkStuckAfter(file, k, file[..k], draws[..n], i + 1);
  }

  /** A window of the generation loop that does not occur stops the whole
      walk with predictNext's exception. */
  lemma WalkStuckAt(file: string, k: nat, draws: seq<real>, n: nat, i: nat, output: string)
    requires WellFormed(file, k) && Uniform(draws) && i < n <= |draws| && |output| == k + i
    requires Uniform(draws[..i]) && Walk(file, k, file[..k], draws[..i]) == Ok(output)
    requires output[i..] !in Build(file, k).counts
    ensures Uniform(draws[..n]) && Walk(file, k, file[..k], draws[..n]) == Err(UnknownKgram)
  {
    WalkStuckNext(file, k, draws, n, i, output);
    WalkStuckWithin(file, k, draws, n, i);
  }

  /** A window of the generation loop that occurs: writing the sampled
      character extends the walk by one step, keeps the text ASCII, and
      the new window is the old one slid on by one. */
  lemma WalkAdvance(file: string, k: nat, draws: seq<real>, i: nat, output: string, kgram: string, c: char)
    requires WellFormed(file, k) && Uniform(draws) && i < |draws| && |output| == k + i
    requires Uniform(draws[..i]) && Walk(file, k, file[..k], draws[..i]) == Ok(output)
    requires kgram == output[i..] && kgram in Build(file, k).counts
    requires c == Sample(file, k, kgram, draws[i])
    requires AsciiOnly(output)
    ensures Uniform(draws[..i + 1]) && Walk(file, k, file[..k], draws[..i + 1]) == Ok(output + [c])
    ensures AsciiOnly(output + [c])
    ensures (kgram + [c])[1..] == (output + [c])[i + 1..]
  {
    WalkStep(file, k, file[..k], draws, i, output);
    AsciiAppend(output, c);
    SlideWindow(output, i, c);
  }

  /** The main loop of Chat126 on text `file`, order k and T = t: the text
      written to standard output, or the exception that stops it. */
  method Generate(file: string, k: nat, t: int, draws: seq<real>) returns (r: Result<string>)
    requires WellFormed(file, k) && IsInt(t) && k <= IntMax
    requires Uniform(draws) && Steps(t, k) <= |draws|
    ensures r == Generated(file, k, t, draws)
  {
    var languageModel := new MarkovLM(file, k);
    var kgram := file[..k];
    var output := kgram;
    ghost var n := Steps(t, k);
    UniformPrefix(draws, n);
    assert Generated(file, k, t, draws) == Walk(file, k, file[..k], draws[..n]);
    UniformPrefix(draws, 0);
    assert draws[..0] == [];
    assert AsciiOnly(file[..k]);
    // T and k are final, so the bound T - k is the same on every test.
    var bound := Wrapped(t - k);
    assert n == if bound > 0 then bound else 0;
    var i := 0;
    while i < bound
      invariant 0 <= i <= n && |output| == k + i && kgram == output[i..]
      invariant Uniform(draws[..i]) && Walk(file, k, file[..k], draws[..i]) == Ok(output)
      invariant AsciiOnly(output)
      invariant languageModel.Valid() && languageModel.text == file && languageModel.k == k
    {
      ScanPositions(file, k, |file|, kgram);
      AsciiSuffix(output, i);
      var predictedCharacter := languageModel.PredictNext(kgram, draws[i]);
      if predictedCharacter.Err? {
        WalkStuckAt(file, k, draws, n, i, output);
        return Err(predictedCharacter.error);
      }
      WalkAdvance(file, k, draws, i, output, kgram, predictedCharacter.value);
      kgram := kgram + [predictedCharacter.value];
      output := output + [predictedCharacter.value];
      kgram := kgram[1..];
      i := i + 1;
    }
    assert i == n;
    return Ok(output);
  }
}
