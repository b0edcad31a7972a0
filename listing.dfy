/** The text `toString` produces: one line per k-gram, in ascending order,
    holding the k-gram, ": ", then for every character with a non-zero
    count the character, a space, the count in decimal and a space, and a
    newline at the end. */
module Listing {
  import opened Sums
  import opened Kgrams

  function Digit(d: nat): (c: char)
    requires d < 10
    ensures '0' <= c <= '9' && (c as int) - ('0' as int) == d
  {
    "0123456789"[d]
  }

  predicate AllDigits(s: string) {
    forall i | 0 <= i < |s| :: '0' <= s[i] <= '9'
  }

  /** The decimal numeral of n, as string concatenation renders an int. */
  function Decimal(n: nat): (s: string)
    ensures |s| > 0 && AllDigits(s)
    ensures s[0] == '0' ==> n == 0
    decreases n
  {
    if n < 10 then [Digit(n)] else Decimal(n / 10) + [Digit(n % 10)]
  }

  /** The number a string of digits denotes. */
  function Value(s: string): nat
    requires AllDigits(s)
    decreases |s|
  {
    if s == [] then 0 else Value(s[..|s| - 1]) * 10 + ((s[|s| - 1] as int) - ('0' as int))
  }

  /** Reading a count back from its numeral gives the count. */
  lemma {:induction false} DecimalRoundTrip(n: nat)
    ensures Value(Decimal(n)) == n
    decreases n
  {
    if n >= 10 {
      var s := Decimal(n);
      assert s[..|s| - 1] == Decimal(n / 10);
      DecimalRoundTrip(n / 10);
    }
  }

  /** The slots below n whose count is not zero, in increasing order. */
  function Nonzero(row: seq<int>, n: nat): (slots: seq<nat>)
    requires n <= |row|
    ensures forall i | 0 <= i < |slots| :: slots[i] < n
  {
    if n == 0 then [] else Nonzero(row, n - 1) + (if row[n - 1] != 0 then [n - 1] else [])
  }

  /** A slot is listed exactly when its count is not zero. */
  lemma {:induction false} NonzeroMembers(row: seq<int>, n: nat, c: nat)
    requires n <= |row|
    ensures c in Nonzero(row, n) <==> c < n && row[c] != 0
  {
    if n > 0 {
      NonzeroMembers(row, n - 1, c);
    }
  }

  /** The slots are listed in increasing order. */
  lemma {:induction false} NonzeroAscending(row: seq<int>, n: nat)
    requires n <= |row|
    ensures forall i, j | 0 <= i < j < |Nonzero(row, n)| :: Nonzero(row, n)[i] < Nonzero(row, n)[j]
  {
    if n > 0 {
      NonzeroAscending(row, n - 1);
    }
  }

  /** The slots below n whose counts are all zero list nothing. */
  lemma {:induction false} NonzeroEmpty(row: seq<int>, n: nat)
    requires n <= |row|
    ensures Nonzero(row, n) == [] <==> forall c | 0 <= c < n :: row[c] == 0
  {
    if n > 0 {
      NonzeroEmpty(row, n - 1);
    }
  }

  /** The part of a line for one following character: the character, a
      space, its count and a space. */
  function Follower(row: seq<int>, c: nat): (r: string)
    requires c < |row| <= Ascii && NonNegative(row)
    ensures |r| >= 4 && r[0] as int == c && r[1] == ' ' && r[|r| - 1] == ' '
    ensures AllDigits(r[2..|r| - 1]) && Value(r[2..|r| - 1]) == row[c]
  {
    var numeral := Decimal(row[c]);
    DecimalRoundTrip(row[c]);
    var r := [c as char] + (" " + numeral + " ");
    assert r[2..|r| - 1] == numeral;
    r
  }

  /** Looking at one more slot appends its part when its count is not zero. */
  lemma RowStep(row: seq<int>, i: nat)
    requires i < |row| == Ascii && NonNegative(row)
    ensures Followers(row, Nonzero(row, i + 1))
            == Followers(row, Nonzero(row, i)) + (if row[i] != 0 then [i as char] + (" " + Decimal(row[i]) + " ") else "")
  {
    var listed := Nonzero(row, i);
    if row[i] != 0 {
      assert Nonzero(row, i + 1) == listed + [i];
      assert (listed + [i])[..|listed|] == listed;
    } else {
      assert Nonzero(row, i + 1) == listed;
    }
  }

  /** The followers part of a line: one Follower per listed slot. */
  function Followers(row: seq<int>, slots: seq<nat>): (r: string)
    requires |row| <= Ascii && NonNegative(row)
    requires forall i | 0 <= i < |slots| :: slots[i] < |row|
  {
    if slots == [] then "" else Followers(row, slots[..|slots| - 1]) + Follower(row, slots[|slots| - 1])
  }

  /** The followers part is empty exactly when no slot is listed; otherwise
      it starts with the first listed character and ends with a space, and
      every listed slot takes at least four characters. */
  lemma {:induction false} FollowersShape(row: seq<int>, slots: seq<nat>)
    requires |row| <= Ascii && NonNegative(row)
    requires forall i | 0 <= i < |slots| :: slots[i] < |row|
    ensures var r := Followers(row, slots);
            (r == "" <==> slots == []) && |r| >= 4 * |slots| &&
            (slots != [] ==> r[0] as int == slots[0] && r[|r| - 1] == ' ')
    decreases |slots|
  {
    if slots != [] {
      var init := slots[..|slots| - 1];
      FollowersShape(row, init);
      assert init != [] ==> init[0] == slots[0];
    }
  }

  /** The line of k-gram g, whose row of counts is `row`. */
  function Line(g: string, row: seq<int>): (r: string)
    requires |row| == Ascii && NonNegative(row)
    ensures |r| >= |g| + 3 && r[..|g| + 2] == g + ": " && r[|r| - 1] == '\n'
    ensures (forall c | 0 <= c < Ascii :: row[c] == 0) <==> r == g + ": \n"
  {
    NonzeroEmpty(row, Ascii);
    FollowersShape(row, Nonzero(row, Ascii));
    g + ": " + Followers(row, Nonzero(row, Ascii)) + "\n"
  }

  predicate Rowed(keys: seq<string>, rows: map<string, seq<int>>) {
    forall i | 0 <= i < |keys| :: keys[i] in rows && |rows[keys[i]]| == Ascii && NonNegative(rows[keys[i]])
  }

  /** The lines of the given k-grams, in the given order. */
  function Lines(keys: seq<string>, rows: map<string, seq<int>>): (r: string)
    requires Rowed(keys, rows)
  {
    if keys == [] then "" else Lines(keys[..|keys| - 1], rows) + Line(keys[|keys| - 1], rows[keys[|keys| - 1]])
  }

  /** The listing is empty exactly when there are no k-grams; otherwise it
      starts with the line of the first k-gram and ends with a newline. */
  lemma {:induction false} LinesShape(keys: seq<string>, rows: map<string, seq<int>>)
    requires Rowed(keys, rows)
    ensures var r := Lines(keys, rows);
            (r == "" <==> keys == []) &&
            (keys != [] ==> |r| >= |keys[0]| + 3 && r[..|keys[0]| + 2] == keys[0] + ": " && r[|r| - 1] == '\n')
    decreases |keys|
  {
    if keys != [] {
      var init := keys[..|keys| - 1];
      var line := Line(keys[|keys| - 1], rows[keys[|keys| - 1]]);
      LinesShape(init, rows);
      var before := Lines(init, rows);
      assert Lines(keys, rows) == before + line;
      if init == [] {
        assert before == "";
      } else {
        assert init[0] == keys[0];
        assert (before + line)[..|keys[0]| + 2] == before[..|keys[0]| + 2];
      }
    }
  }

  /** Listing one more k-gram appends exactly its line. */
  lemma LinesStep(keys: seq<string>, j: nat, rows: map<string, seq<int>>)
    requires Rowed(keys, rows) && j < |keys|
    ensures Rowed(keys[..j], rows) && Rowed(keys[..j + 1], rows)
    ensures Lines(keys[..j + 1], rows) == Lines(keys[..j], rows) + Line(keys[j], rows[keys[j]])
  {
    assert keys[..j + 1][..j] == keys[..j];
  }
}
