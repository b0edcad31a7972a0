/** What a MarkovLM of order k built from `text` holds, stated on values.
    The text is read circularly: position i (0 <= i < |text|) has the k-gram
    circular[i..i+k] and the following character circular[i+k], where
    circular = text + text[..k]. */
module Kgrams {
  import opened Sums
  import opened Discrete

  /** Number of slots in a frequency row: one per ASCII character. */
  const Ascii := 128

  /** What the constructor needs of its arguments: `text.substring(0, k)`
      needs k <= |text|, and `temp[character]` needs every character below 128. */
  predicate WellFormed(text: string, k: nat) {
    k <= |text| && forall i | 0 <= i < |text| :: text[i] as int < Ascii
  }

  /** The text with its first k characters appended. */
  function Circular(text: string, k: nat): (c: string)
    requires k <= |text|
    ensures |c| == |text| + k
    ensures forall j | 0 <= j < |c| :: c[j] == text[if j < |text| then j else j - |text|]
  {
    text + text[..k]
  }

  /** The k-gram that starts at position i. */
  function KgramAt(text: string, k: nat, i: nat): (g: string)
    requires k <= |text| && i < |text|
    ensures |g| == k
  {
    Circular(text, k)[i..i + k]
  }

  /** The character that follows the k-gram at position i, wrapping around. */
  function NextAt(text: string, k: nat, i: nat): (c: char)
    requires WellFormed(text, k) && i < |text|
    ensures c == text[if i + k < |text| then i + k else i + k - |text|]
    ensures c as int < Ascii
  {
    Circular(text, k)[i + k]
  }

  /** The positions among the first n at which g occurs. */
  ghost function Positions(text: string, k: nat, n: nat, g: string): set<nat>
    requires k <= |text| && n <= |text|
  {
    set i: nat | i < n && KgramAt(text, k, i) == g
  }

  /** The positions among the first n at which g occurs followed by c. */
  ghost function Follows(text: string, k: nat, n: nat, g: string, c: char): set<nat>
    requires WellFormed(text, k) && n <= |text|
  {
    set i: nat | i < n && KgramAt(text, k, i) == g && NextAt(text, k, i) == c
  }

  /** The two symbol tables of MarkovLM: `kgrams` (occurrence count of each
      k-gram) and `chars` (its 128-slot row of next-character counts). */
  datatype Tables = Tables(counts: map<string, int>, next: map<string, seq<int>>)

  /** Shape of the tables: the same keys in both, a 128-slot row of
      non-negative counts for each, and a positive count for each. */
  predicate Shaped(t: Tables) {
    && t.counts.Keys == t.next.Keys
    && (forall g | g in t.next :: |t.next[g]| == Ascii && NonNegative(t.next[g]))
    && (forall g | g in t.counts :: t.counts[g] > 0)
  }

  /** First half of one iteration of the constructor's loop: on first sight
      g gets count 1 and a zero row, otherwise its count goes up by one. */
  function Seen(t: Tables, g: string): (r: Tables)
    ensures r.counts == t.counts[g := (if g in t.counts then t.counts[g] else 0) + 1]
    ensures g !in t.counts ==> r.next == t.next[g := Zeros(Ascii)]
    ensures g in t.counts ==> r.next == t.next
  {
    if g !in t.counts then Tables(t.counts[g := 1], t.next[g := Zeros(Ascii)])
    else Tables(t.counts[g := t.counts[g] + 1], t.next)
  }

  /** Second half: slot c of g's row goes up by one. */
  function Tally(t: Tables, g: string, c: nat): (r: Tables)
    requires g in t.next && c < |t.next[g]|
    ensures r.counts == t.counts
    ensures r.next == t.next[g := t.next[g][c := t.next[g][c] + 1]]
  {
    var row := t.next[g];
    Tables(t.counts, t.next[g := row[c := row[c] + 1]])
  }

  /** One iteration of the constructor's loop, for k-gram g followed by the
      character with code c. */
  function Record(t: Tables, g: string, c: nat): (r: Tables)
    requires Shaped(t) && c < Ascii
    ensures Shaped(r)
    ensures r.counts == t.counts[g := (if g in t.counts then t.counts[g] else 0) + 1]
    ensures var row := if g in t.next then t.next[g] else Zeros(Ascii);
            r.next == t.next[g := row[c := row[c] + 1]]
  {
    Tally(Seen(t, g), g, c)
  }

  /** The tables after the constructor's loop has handled positions 0 .. n-1. */
  function Scan(text: string, k: nat, n: nat): (t: Tables)
    requires WellFormed(text, k) && n <= |text|
    ensures Shaped(t)
    decreases n, 0
  {
    if n == 0 then Tables(map[], map[]) else ScanThrough(text, k, n - 1)
  }

  /** The tables once the loop has also handled position i. */
  function ScanThrough(text: string, k: nat, i: nat): (t: Tables)
    requires WellFormed(text, k) && i < |text|
    ensures Shaped(t)
    decreases i, 1
  {
    Record(Scan(text, k, i), KgramAt(text, k, i), NextAt(text, k, i) as int)
  }

  /** One more iteration of the loop records position n. */
  lemma ScanStep(text: string, k: nat, n: nat)
    requires WellFormed(text, k) && n < |text|
    ensures Scan(text, k, n + 1) == Record(Scan(text, k, n), KgramAt(text, k, n), NextAt(text, k, n) as int)
  {
  }

  /** The tables of the whole text: a row of counts per k-gram, and one
      count per position of the text, so nothing at all for an empty text. */
  function Build(text: string, k: nat): (r: Tables)
    requires WellFormed(text, k)
    ensures Shaped(r)
    ensures SumValues(r.counts) == |text|
    ensures |r.counts| == 0 <==> |text| == 0
  {
    ScanTotal(text, k, |text|);
    Scan(text, k, |text|)
  }

  /** Handling position n - 1 adds it to the positions of its own k-gram
      and leaves every other k-gram's positions alone. */
  lemma PositionsStep(text: string, k: nat, n: nat, g: string)
    requires k <= |text| && 0 < n <= |text|
    ensures Positions(text, k, n, g)
            == Positions(text, k, n - 1, g) + (if KgramAt(text, k, n - 1) == g then {n - 1} else {})
  {
  }

  lemma FollowsStep(text: string, k: nat, n: nat, g: string, c: char)
    requires WellFormed(text, k) && 0 < n <= |text|
    ensures Follows(text, k, n, g, c)
            == Follows(text, k, n - 1, g, c)
               + (if KgramAt(text, k, n - 1) == g && NextAt(text, k, n - 1) == c then {n - 1} else {})
  {
  }

  /** What Record does to one k-gram h's count and row. */
  lemma RecordAt(t: Tables, g: string, c: nat, h: string)
    requires Shaped(t) && c < Ascii
    ensures h in Record(t, g, c).counts <==> h in t.counts || h == g
    ensures h != g && h in t.counts ==> Record(t, g, c).counts[h] == t.counts[h] && Record(t, g, c).next[h] == t.next[h]
    ensures h == g ==> Record(t, g, c).counts[h] == (if h in t.counts then t.counts[h] else 0) + 1
  {
  }

  /** What Record does to slot d of the recorded k-gram's row. */
  lemma RecordSlot(t: Tables, g: string, c: nat, d: nat)
    requires Shaped(t) && c < Ascii && d < Ascii
    ensures Record(t, g, c).next[g][d] == (if g in t.next then t.next[g][d] else 0) + (if d == c then 1 else 0)
  {
  }

  /** Every stored k-gram has length k, and a row entry counts exactly the
      positions where the k-gram is followed by that character. */
  lemma {:induction false} ScanFollows(text: string, k: nat, n: nat, g: string, c: char)
    requires WellFormed(text, k) && n <= |text| && c as int < Ascii
    ensures g in Scan(text, k, n).next ==> |g| == k && Scan(text, k, n).next[g][c as int] == |Follows(text, k, n, g, c)|
    ensures g !in Scan(text, k, n).next ==> Follows(text, k, n, g, c) == {}
  {
    if n > 0 {
      var prev, h, d := Scan(text, k, n - 1), KgramAt(text, k, n - 1), NextAt(text, k, n - 1) as int;
      assert Scan(text, k, n) == Record(prev, h, d);
      ScanFollows(text, k, n - 1, g, c);
      FollowsStep(text, k, n, g, c);
      RecordAt(prev, h, d, g);
      if g == h {
        RecordSlot(prev, h, d, c as int);
      }
    }
  }

  /** A k-gram is stored exactly when it occurs, and its count is the number
      of positions at which it occurs. */
  lemma {:induction false} ScanPositions(text: string, k: nat, n: nat, g: string)
    requires WellFormed(text, k) && n <= |text|
    ensures g in Scan(text, k, n).counts <==> Positions(text, k, n, g) != {}
    ensures g in Scan(text, k, n).counts ==> Scan(text, k, n).counts[g] == |Positions(text, k, n, g)|
  {
    if n > 0 {
      var prev, h, c := Scan(text, k, n - 1), KgramAt(text, k, n - 1), NextAt(text, k, n - 1) as int;
      assert Scan(text, k, n) == Record(prev, h, c);
      ScanPositions(text, k, n - 1, g);
      PositionsStep(text, k, n, g);
      RecordAt(prev, h, c, g);
    }
  }

  /** Each loop iteration adds one to one count, so the counts add up to the
      number of positions handled. */
  lemma {:induction false} ScanTotal(text: string, k: nat, n: nat)
    requires WellFormed(text, k) && n <= |text|
    ensures SumValues(Scan(text, k, n).counts) == n
  {
    if n > 0 {
      var prev, g, c := Scan(text, k, n - 1), KgramAt(text, k, n - 1), NextAt(text, k, n - 1) as int;
      ScanTotal(text, k, n - 1);
      RecordTotal(prev, g, c);
      assert Scan(text, k, n) == Record(prev, g, c);
    } else {
      var empty := Scan(text, k, 0).counts;
      assert empty == map[];
      assert |empty.Keys| == 0;
    }
  }

  lemma RecordTotal(t: Tables, g: string, c: nat)
    requires Shaped(t) && c < Ascii
    ensures SumValues(Record(t, g, c).counts) == SumValues(t.counts) + 1
  {
    SumValuesIncrement(t.counts, g);
  }

  /** A k-gram's row of next-character counts adds up to its count. */
  lemma {:induction false} ScanRowSums(text: string, k: nat, n: nat, g: string)
    requires WellFormed(text, k) && n <= |text| && g in Scan(text, k, n).counts
    ensures Sum(Scan(text, k, n).next[g]) == Scan(text, k, n).counts[g]
  {
    var prev, h, c := Scan(text, k, n - 1), KgramAt(text, k, n - 1), NextAt(text, k, n - 1) as int;
    assert Scan(text, k, n) == Record(prev, h, c);
    if g in prev.counts {
      ScanRowSums(text, k, n - 1, g);
    }
    RecordRowSum(prev, h, c, g);
  }

  /** Record keeps "the row of h sums to the count of h". */
  lemma RecordRowSum(t: Tables, g: string, c: nat, h: string)
    requires Shaped(t) && c < Ascii && h in Record(t, g, c).counts
    requires h in t.counts ==> Sum(t.next[h]) == t.counts[h]
    ensures Sum(Record(t, g, c).next[h]) == Record(t, g, c).counts[h]
  {
    if h == g {
      if g in t.counts {
        SumIncrement(t.next[g], c);
      } else {
        SumZeros(Ascii);
        SumIncrement(Zeros(Ascii), c);
      }
    }
  }

  /** Moving the window one step: the k-gram at position i, extended by its
      following character and stripped of its first character, is the k-gram
      at the next position (position 0 after the last one). */
  lemma Slide(text: string, k: nat, i: nat)
    requires WellFormed(text, k) && i < |text|
    ensures (KgramAt(text, k, i) + [NextAt(text, k, i)])[1..]
            == KgramAt(text, k, if i + 1 < |text| then i + 1 else 0)
  {
    var circular := Circular(text, k);
    var slid := (KgramAt(text, k, i) + [NextAt(text, k, i)])[1..];
    assert slid == circular[i + 1..i + k + 1];
  }

  /** If c has followed g somewhere in the text, the window that follows g
      after emitting c also occurs in the text. */
  lemma SuccessorOccurs(text: string, k: nat, g: string, c: char)
    requires WellFormed(text, k) && Follows(text, k, |text|, g, c) != {}
    ensures Positions(text, k, |text|, (g + [c])[1..]) != {}
  {
    var i :| i in Follows(text, k, |text|, g, c);
    Slide(text, k, i);
    var j := if i + 1 < |text| then i + 1 else 0;
    assert j in Positions(text, k, |text|, (g + [c])[1..]);
  }

  /** The seed window text[..k] occurs in any non-empty text (at position 0). */
  lemma SeedOccurs(text: string, k: nat)
    requires WellFormed(text, k) && |text| > 0
    ensures Positions(text, k, |text|, text[..k]) != {}
  {
    assert KgramAt(text, k, 0) == text[..k];
    assert 0 in Positions(text, k, |text|, text[..k]);
  }

  /** An empty text stores nothing. */
  lemma EmptyTextStoresNothing(text: string, k: nat, g: string)
    requires WellFormed(text, k) && |text| == 0
    ensures Positions(text, k, |text|, g) == {}
  {
  }

  /** Every character of an occurring k-gram is a character of the text. */
  lemma OccurringKgramChars(text: string, k: nat, g: string, j: nat)
    requires WellFormed(text, k) && Positions(text, k, |text|, g) != {} && j < |g|
    ensures g[j] in text
  {
    var i :| i in Positions(text, k, |text|, g);
    assert g[j] == Circular(text, k)[i + j];
  }

  /** The character that predictNext returns after the stored k-gram g when
      the uniform draw is u: the walk over g's cumulative counts. */
  function Sample(text: string, k: nat, g: string, u: real): (c: char)
    requires WellFormed(text, k) && g in Build(text, k).counts && 0.0 <= u < 1.0
    ensures Follows(text, k, |text|, g, c) != {}
    ensures c as int < Ascii
  {
    var t := Build(text, k);
    ScanRowSums(text, k, |text|, g);
    var d := Pick(t.next[g], Threshold(u, t.counts[g]));
    ScanFollows(text, k, |text|, g, d as char);
    d as char
  }

  /** The window after a sampled character is again a stored k-gram. */
  lemma SampleKeepsWindow(text: string, k: nat, g: string, u: real)
    requires WellFormed(text, k) && g in Build(text, k).counts && 0.0 <= u < 1.0
    ensures (g + [Sample(text, k, g, u)])[1..] in Build(text, k).counts
  {
    var c := Sample(text, k, g, u);
    SuccessorOccurs(text, k, g, c);
    ScanPositions(text, k, |text|, (g + [c])[1..]);
  }

  /** The sampling is proportional: of the count(g) equally likely integer
      thresholds, exactly as many select c as there are positions where g is
      followed by c. */
  lemma SampleProportional(text: string, k: nat, g: string, c: char)
    requires WellFormed(text, k) && g in Build(text, k).counts && c as int < Ascii
    ensures Sum(Build(text, k).next[g]) == Build(text, k).counts[g]
    ensures var row := Build(text, k).next[g];
            |set r | 0 <= r < Sum(row) && Pick(row, r) == c as int| == |Follows(text, k, |text|, g, c)|
  {
    var t := Build(text, k);
    ScanRowSums(text, k, |text|, g);
    ScanFollows(text, k, |text|, g, c);
    PickProportional(t.next[g], c as int);
  }

  /** The k-grams and following characters of "banana" read circularly
      ("bananaba"). */
  lemma BananaLayout(s: string)
    requires s == "banana"
    ensures WellFormed(s, 2)
    ensures forall i: nat | i < 6 :: KgramAt(s, 2, i) == ["ba", "an", "na", "an", "na", "ab"][i]
    ensures forall i: nat | i < 6 :: NextAt(s, 2, i) == "nanaba"[i]
  {
    assert WellFormed(s, 2);
    forall i: nat | i < 6 ensures KgramAt(s, 2, i) == ["ba", "an", "na", "an", "na", "ab"][i] && NextAt(s, 2, i) == "nanaba"[i] {
      assert Circular(s, 2) == "bananaba";
    }
  }
  /** "na" occurs at 2 and 4; "an" is followed by 'a' at 1 and 3. */
  lemma BananaOccurrences(s: string)
    requires s == "banana"
    ensures WellFormed(s, 2)
    ensures Positions(s, 2, 6, "na") == {2, 4}
    ensures Follows(s, 2, 6, "an", 'a') == {1, 3}
  {
    BananaLayout(s);
    var grams, nexts := ["ba", "an", "na", "an", "na", "ab"], "nanaba";
    forall i: nat | i < 6
      ensures KgramAt(s, 2, i) == "na" <==> i == 2 || i == 4
      ensures KgramAt(s, 2, i) == "an" && NextAt(s, 2, i) == 'a' <==> i == 1 || i == 3
    {
      assert KgramAt(s, 2, i) == grams[i] && NextAt(s, 2, i) == nexts[i];
    }
  }

  /** "na" is followed by 'b' only at 4 (by wrap-around) and never by 'a'. */
  lemma BananaFollowers(s: string)
    requires s == "banana"
    ensures WellFormed(s, 2)
    ensures Follows(s, 2, 6, "na", 'b') == {4}
    ensures Follows(s, 2, 6, "na", 'a') == {}
  {
    BananaLayout(s);
    var grams, nexts := ["ba", "an", "na", "an", "na", "ab"], "nanaba";
    forall i: nat | i < 6
      ensures KgramAt(s, 2, i) == "na" && NextAt(s, 2, i) == 'b' <==> i == 4
      ensures !(KgramAt(s, 2, i) == "na" && NextAt(s, 2, i) == 'a')
    {
      assert KgramAt(s, 2, i) == grams[i] && NextAt(s, 2, i) == nexts[i];
    }
  }

  lemma PairSize(a: nat, b: nat)
    requires a != b
    ensures |{a, b}| == 2
  {
  }

  /** The test harness's expectations for "banana", k = 2:
      freq("an", 'a') = 2, freq("na", 'b') = 1, freq("na", 'a') = 0, freq("na") = 2. */
  lemma BananaExample(s: string)
    requires s == "banana"
    ensures WellFormed(s, 2)
    ensures var t := Build(s, 2);
            && "an" in t.next && t.next["an"]['a' as int] == 2
            && "na" in t.next && t.next["na"]['b' as int] == 1 && t.next["na"]['a' as int] == 0
            && t.counts["na"] == 2
  {
    BananaOccurrences(s);
    BananaFollowers(s);
    var t := Build(s, 2);
    assert t == Scan(s, 2, 6);
    PairSize(2, 4);
    PairSize(1, 3);
    ScanPositions(s, 2, 6, "na");
    assert t.counts["na"] == 2;
    ScanFollows(s, 2, 6, "an", 'a');
    assert t.next["an"]['a' as int] == 2;
    ScanFollows(s, 2, 6, "na", 'b');
    assert t.next["na"]['b' as int] == 1;
    ScanFollows(s, 2, 6, "na", 'a');
  }

  /** The test harness's expectation freq("tuna") = 0 for order 4 over
      "one fish two fish red fish blue fish": the text has no 'a'. */
  lemma FishExample(s: string)
    requires s == "one fish two fish red fish blue fish"
    ensures WellFormed(s, 4)
    ensures "tuna" !in Build(s, 4).counts
  {
    assert WellFormed(s, 4);
    assert 'a' !in s;
    ScanPositions(s, 4, |s|, "tuna");
    if Positions(s, 4, |s|, "tuna") != {} {
      OccurringKgramChars(s, 4, "tuna", 3);
    }
  }
}
