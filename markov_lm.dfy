/** MarkovLM: a Markov language model of order k over ASCII text. It keeps
    two symbol tables, `kgrams` (how often each k-gram occurs in the circular
    text) and `chars` (for each k-gram, a 128-slot array counting the
    characters that follow it), and answers frequency queries and weighted
    next-character predictions. */
module Markov {
  import opened Sums
  import opened Discrete
  import opened Kgrams
  import opened LexOrder
  import opened Listing

  /** The exceptions the model's methods throw. */
  datatype Error =
    | WrongLength       // IllegalArgumentException: the k-gram is not of length k
    | UnknownKgram      // IllegalArgumentException: the k-gram does not occur in the text
    | IndexOutOfBounds  // ArrayIndexOutOfBoundsException: a character code of 128 or more

  datatype Result<T> = Ok(value: T) | Err(error: Error)

  /** A Java `char`: one UTF-16 code unit. */
  newtype Char16 = x: int | 0 <= x < 0x1_0000

  /** `String.length()`: the number of UTF-16 code units, which is two for
      a character beyond U+FFFF and one for any other. */
  function Utf16Length(s: string): (n: nat)
    ensures n >= |s|
    ensures n == |s| <==> forall i | 0 <= i < |s| :: s[i] as int < 0x1_0000
  {
    if s == [] then 0
    else
      var last := s[|s| - 1];
      var init := s[..|s| - 1];
      assert forall i | 0 <= i < |init| :: init[i] == s[i];
      Utf16Length(init) + (if last as int < 0x1_0000 then 1 else 2)
  }

  /** A stored k-gram is made of ASCII characters, so Java's length of it is
      its number of characters, k. */
  lemma StoredLength(text: string, k: nat, g: string)
    requires WellFormed(text, k)
    ensures g in Build(text, k).counts ==> |g| == k && Utf16Length(g) == k
  {
    ScanPositions(text, k, |text|, g);
    if g in Build(text, k).counts {
      var i :| i in Positions(text, k, |text|, g);
      forall j | 0 <= j < |g|
        ensures g[j] as int < 0x1_0000
      {
        OccurringKgramChars(text, k, g, j);
      }
    }
  }

  /** `new int[ASCII]`: a fresh row of 128 zero counts. */
  method NewRow() returns (row: array<int>)
    ensures fresh(row) && row.Length == Ascii && row[..] == Zeros(Ascii)
  {
    row := new int[Ascii](_ => 0);
  }

  /** The contents of a table of frequency arrays, as rows of counts. */
  ghost function Contents(m: map<string, array<int>>): map<string, seq<int>>
    reads m.Values
  {
    map g | g in m :: m[g][..]
  }

  /** Putting array a under key g puts a's contents under g. */
  lemma ContentsUpdate(m: map<string, array<int>>, g: string, a: array<int>)
    ensures Contents(m[g := a]) == Contents(m)[g := a[..]]
  {
  }

  /** The followers part of one line of toString: for every slot with a
      non-zero count, in increasing order, the character, its count and the
      separating spaces. */
  method RenderRow(frequencies: array<int>) returns (part: string)
    requires frequencies.Length == Ascii && NonNegative(frequencies[..])
    ensures part == Followers(frequencies[..], Nonzero(frequencies[..], Ascii))
  {
    ghost var row := frequencies[..];
    part := "";
    var i := 0;
    while i < frequencies.Length
      invariant 0 <= i <= frequencies.Length
      invariant part == Followers(row, Nonzero(row, i))
    {
      RowStep(row, i);
      if frequencies[i] != 0 {
        part := part + ([i as char] + (" " + Decimal(frequencies[i]) + " "));
      }
      i := i + 1;
    }
  }

  /** The lines of toString for the given k-grams, in the given order; the
      row of each k-gram is read from its array in `chars`. */
  method RenderLines(keys: seq<string>, chars: map<string, array<int>>, ghost rows: map<string, seq<int>>)
    returns (result: string)
    requires forall g | g in keys ::
               g in chars && g in rows && chars[g].Length == Ascii && chars[g][..] == rows[g] && NonNegative(rows[g])
    ensures Rowed(keys, rows) && result == Lines(keys, rows)
  {
    assert Rowed(keys, rows) by {
      forall i | 0 <= i < |keys|
        ensures keys[i] in rows && |rows[keys[i]]| == Ascii && NonNegative(rows[keys[i]])
      {
        assert keys[i] in keys;
      }
    }
    assert keys[..0] == [];
    result := "";
    var j := 0;
    while j < |keys|
      invariant 0 <= j <= |keys|
      invariant Rowed(keys[..j], rows) && result == Lines(keys[..j], rows)
    {
      var key := keys[j];
      assert key in keys;
      var frequencies := chars[key];
      var followers := RenderRow(frequencies);
      var line := key + ": " + followers + "\n";
      assert line == Line(key, rows[key]);
      LinesStep(keys, j, rows);
      result := result + line;
      j := j + 1;
    }
    assert keys[..j] == keys;
  }

  class MarkovLM {
    /** The order of the model. */
    const k: nat
    /** The text the model was built from; only the proofs refer to it. */
    ghost const text: string
    /** Occurrence count of each k-gram. */
    var kgrams: map<string, int>
    /** For each k-gram, the counts of the characters that follow it. */
    var chars: map<string, array<int>>
    /** The k-gram each frequency array belongs to: no two k-grams share one. */
    ghost var owner: map<array<int>, string>

    /** The contents of the frequency arrays, as rows of counts. */
    ghost function Rows(): map<string, seq<int>>
      reads this, chars.Values
    {
      Contents(chars)
    }

    /** Every k-gram has a 128-slot array of its own. */
    ghost predicate Separate()
      reads this
    {
      forall g | g in chars :: chars[g].Length == Ascii && chars[g] in owner && owner[chars[g]] == g
    }

    /** The two tables as a value. */
    ghost function Tabled(): Tables
      reads this, chars.Values
    {
      Tables(kgrams, Rows())
    }

    /** The fields hold the tables t, each k-gram with an array of its own. */
    ghost predicate Holds(t: Tables)
      reads this, chars.Values
    {
      && Separate()
      && kgrams.Keys == chars.Keys
      && Tabled() == t
    }

    /** The tables hold what the constructor's loop has computed from the
        first n positions of `text`. */
    ghost predicate Counted(n: nat)
      reads this, chars.Values
    {
      && WellFormed(text, k) && n <= |text|
      && Holds(Scan(text, k, n))
    }

    /** The tables hold exactly what the constructor computes from `text`. */
    ghost predicate Valid()
      reads this, chars.Values
    {
      Counted(|text|)
    }

    /** Builds the model of order k: one pass over the text, counting at each
        position i the k-gram circular[i..i+k] and the character circular[i+k]
        that follows it. */
    constructor (text: string, k: nat)
      requires WellFormed(text, k)
      ensures this.text == text && this.k == k
      ensures Valid()
    {
      this.k := k;
      this.text := text;
      kgrams := map[];
      chars := map[];
      owner := map[];
      new;
      NothingCounted();
      var circular := text + text[..k];
      var i := 0;
      while i < |text|
        invariant 0 <= i <= |text| && Counted(i)
        invariant forall g | g in chars :: fresh(chars[g])
      {
        Count(circular, i);
        i := i + 1;
      }
    }

    /** Empty tables hold what the loop computes from no positions. */
    lemma NothingCounted()
      requires WellFormed(text, k) && kgrams == map[] && chars == map[]
      ensures Counted(0)
    {
      assert Rows() == map[];
    }

    /** One iteration of the constructor's loop: counts the k-gram at
        position i of the circular text and the character after it. */
    method Count(circular: string, i: nat)
      requires Counted(i) && i < |text| && circular == text + text[..k]
      modifies this, chars.Values
      ensures Counted(i + 1)
      ensures forall g | g in old(chars) :: g in chars && chars[g] == old(chars[g])
      ensures forall g | g in chars :: (g in old(chars) && chars[g] == old(chars[g])) || fresh(chars[g])
    {
      var kgram := circular[i..i + k];
      var character := circular[i + k];
      ghost var t := Scan(text, k, i);
      assert kgram == KgramAt(text, k, i) && character == NextAt(text, k, i);
      ScanStep(text, k, i);
      assert Scan(text, k, i + 1) == Tally(Seen(t, kgram), kgram, character as int);
      Enter(kgram);
      Bump(kgram, character as int);
    }

    /** The first half of an iteration: a k-gram seen for the first time gets
        count 1 and a fresh zeroed array; one seen before has its count raised. */
    method Enter(kgram: string)
      requires Separate() && kgrams.Keys == chars.Keys
      modifies this
      ensures Tabled() == Seen(old(Tabled()), kgram)
      ensures kgrams.Keys == chars.Keys && Separate()
      ensures forall g | g in old(chars) :: g in chars && chars[g] == old(chars[g])
      ensures forall g | g in chars :: (g in old(chars) && chars[g] == old(chars[g])) || fresh(chars[g])
    {
      if kgram !in kgrams {
        Admit(kgram);
      } else {
        ghost var rows := Rows();
        kgrams := kgrams[kgram := kgrams[kgram] + 1];
        assert Rows() == rows;
      }
    }

    /** A k-gram seen for the first time: count 1 and a fresh array of zeros. */
    method Admit(kgram: string)
      requires Separate() && kgrams.Keys == chars.Keys && kgram !in kgrams
      modifies this
      ensures kgrams == old(kgrams)[kgram := 1]
      ensures Rows() == old(Rows())[kgram := Zeros(Ascii)]
      ensures kgrams.Keys == chars.Keys && Separate()
      ensures forall g | g in old(chars) :: g in chars && chars[g] == old(chars[g])
      ensures forall g | g in chars :: (g in old(chars) && chars[g] == old(chars[g])) || fresh(chars[g])
    {
      ghost var rows, arrays := Rows(), chars;
      var row := NewRow();
      assert Contents(arrays) == rows;
      kgrams := kgrams[kgram := 1];
      chars := chars[kgram := row];
      owner := owner[row := kgram];
      forall g | g in chars
        ensures chars[g].Length == Ascii && chars[g] in owner && owner[chars[g]] == g
      {
        if g != kgram {
          assert chars[g] == arrays[g] != row;
        }
      }
      ContentsUpdate(arrays, kgram, row);
    }

    /** The second half: slot c of the k-gram's array goes up by one. */
    method Bump(kgram: string, c: nat)
      requires Separate() && kgram in chars && c < Ascii
      modifies this, chars[kgram]
      ensures kgrams.Keys == chars.Keys <==> old(kgrams.Keys == chars.Keys)
      ensures Separate()
      ensures Tabled() == Tally(old(Tabled()), kgram, c)
      ensures chars == old(chars)
    {
      ghost var rows := Rows();
      var temp := chars[kgram];
      temp[c] := temp[c] + 1;
      chars := chars[kgram := temp];
      assert Rows() == rows[kgram := temp[..]];
    }

    /** s lists the k-grams `keys`, which are the k-grams of the table in
        ascending order, each with the row the constructor computes for it. */
    ghost predicate ListedAs(s: string, keys: seq<string>)
      reads this
    {
      && WellFormed(text, k)
      && Sorted(keys)
      && (forall g :: g in keys <==> g in kgrams)
      && Rowed(keys, Build(text, k).next)
      && s == Lines(keys, Build(text, k).next)
    }

    /** toString: the lines of all k-grams in ascending order, each listing
        the characters that follow it with their counts. The k-grams are
        gathered from the symbol table in whatever order it yields them and
        then sorted; SortedUnique shows that the result does not depend on
        that order. */
    method ToString() returns (s: string)
      requires Valid()
      ensures exists keys: seq<string> :: ListedAs(s, keys)
    {
      ghost var rows := Build(text, k).next;
      forall g | g in chars
        ensures g in rows && chars[g].Length == Ascii && chars[g][..] == rows[g] && NonNegative(rows[g])
      {
        assert chars[g][..] == Rows()[g];
      }
      var keys := SortedKgrams();
      forall g | g in keys
        ensures g in chars && g in rows && chars[g].Length == Ascii && chars[g][..] == rows[g] && NonNegative(rows[g])
      {
        assert g in kgrams;
      }
      s := RenderLines(keys, chars, rows);
      assert ListedAs(s, keys);
    }

    /** toString is determined by the model: however the k-grams are
        gathered, the ascending listing is the same text. */
    lemma ListingDeterministic(s: string, keys: seq<string>, s': string, keys': seq<string>)
      requires ListedAs(s, keys) && ListedAs(s', keys')
      ensures keys == keys' && s == s'
    {
      SortedUnique(keys, keys');
    }

    /** The k-grams of the symbol table in ascending order: gathered into
        an array, which is then sorted. */
    method SortedKgrams() returns (keys: seq<string>)
      ensures Sorted(keys)
      ensures forall g :: g in keys <==> g in kgrams
    {
      var sortedKgrams := Gather();
      ghost var gathered := multiset(sortedKgrams[..]);
      assert forall g :: g in gathered <==> g in kgrams;
      Sort(sortedKgrams);
      keys := sortedKgrams[..];
      assert forall g :: g in keys <==> g in gathered;
    }

    /** The k-grams of the symbol table, each once, in a fresh array. */
    method Gather() returns (sortedKgrams: array<string>)
      ensures fresh(sortedKgrams)
      ensures Distinct(sortedKgrams[..])
      ensures forall g :: g in sortedKgrams[..] <==> g in kgrams
    {
      sortedKgrams := new string[|kgrams|];
      var index := 0;
      var remaining := kgrams.Keys;
      while remaining != {}
        invariant index + |remaining| == sortedKgrams.Length
        invariant remaining <= kgrams.Keys
        invariant forall g :: g in sortedKgrams[..index] <==> g in kgrams && g !in remaining
        invariant Distinct(sortedKgrams[..index])
        decreases |remaining|
      {
        var kgram :| kgram in remaining;
        ghost var gathered := sortedKgrams[..index];
        sortedKgrams[index] := kgram;
        assert sortedKgrams[..index + 1] == gathered + [kgram];
        remaining := remaining - {kgram};
        index := index + 1;
      }
      assert sortedKgrams[..] == sortedKgrams[..index];
    }

    /** The order k of the model. */
    function Order(): (order: nat)
      reads this
      ensures order == k
    {
      k
    }

    /** freq(kgram): how many positions of the circular text start with kgram;
        zero for a k-gram that never occurs. The length check counts UTF-16
        code units, as `String.length()` does. */
    function Freq(kgram: string): (r: Result<int>)
      requires Valid()
      reads this, chars.Values
      ensures r.Err? <==> Utf16Length(kgram) != k
      ensures r.Err? ==> r.error == WrongLength
      ensures r.Ok? ==> r.value == |Positions(text, k, |text|, kgram)|
    {
      ScanPositions(text, k, |text|, kgram);
      if Utf16Length(kgram) != k then Err(WrongLength)
      else if kgram !in kgrams then Ok(0)
      else Ok(kgrams[kgram])
    }

    /** freq(kgram, c): how many positions start with kgram and are followed
        by c. A k-gram that never occurs answers zero for every c; for one
        that occurs, a character code outside the 128-slot row throws. */
    function FreqNext(kgram: string, c: Char16): (r: Result<int>)
      requires Valid()
      reads this, chars.Values
      ensures Utf16Length(kgram) != k ==> r == Err(WrongLength)
      ensures Utf16Length(kgram) == k && (c as int) < Ascii ==>
                r == Ok(|Follows(text, k, |text|, kgram, (c as int) as char)|)
      ensures Utf16Length(kgram) == k && (c as int) >= Ascii ==>
                r == if Positions(text, k, |text|, kgram) == {} then Ok(0) else Err(IndexOutOfBounds)
      ensures r.Ok? ==> 0 <= r.value <= Freq(kgram).value
    {
      ScanPositions(text, k, |text|, kgram);
      if Utf16Length(kgram) != k then Err(WrongLength)
      else if kgram !in kgrams then
        (if (c as int) < Ascii then ScanFollows(text, k, |text|, kgram, (c as int) as char); Ok(0) else Ok(0))
      else
        var storage := chars[kgram];
        if (c as int) < storage.Length then
          ScanFollows(text, k, |text|, kgram, (c as int) as char);
          ScanRowSums(text, k, |text|, kgram);
          ElementBelowSum(storage[..], c as int);
          Ok(storage[c as int])
        else Err(IndexOutOfBounds)
    }

    /** predictNext(kgram) with the uniform draw u of StdRandom.discrete made
        a parameter: the character whose cumulative interval of counts holds
        the draw. The result always followed kgram somewhere in the text. */
    function PredictNext(kgram: string, u: real): (r: Result<char>)
      requires Valid() && 0.0 <= u < 1.0
      reads this, chars.Values
      ensures r.Err? <==> Utf16Length(kgram) != k || Positions(text, k, |text|, kgram) == {}
      ensures Utf16Length(kgram) != k ==> r == Err(WrongLength)
      ensures Utf16Length(kgram) == k && Positions(text, k, |text|, kgram) == {} ==> r == Err(UnknownKgram)
      ensures r.Ok? ==> Follows(text, k, |text|, kgram, r.value) != {} && r.value as int < Ascii
      ensures kgram in Build(text, k).counts ==> r == Ok(Sample(text, k, kgram, u))
    {
      ScanPositions(text, k, |text|, kgram);
      StoredLength(text, k, kgram);
      if Utf16Length(kgram) != k then Err(WrongLength)
      else if kgram !in kgrams then Err(UnknownKgram)
      else
        var total := kgrams[kgram];
        var frequencies := chars[kgram];
        assert total == Build(text, k).counts[kgram] && frequencies[..] == Build(text, k).next[kgram];
        ScanRowSums(text, k, |text|, kgram);
        var c := Pick(frequencies[..], Threshold(u, total)) as char;
        assert c == Sample(text, k, kgram, u);
        Ok(c)
    }
  }
}
