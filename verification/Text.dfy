/** Joining strings with a separator and splitting them at one. */
module Text {

  /** Python's `separator.join(pieces)`. */
  function Join(pieces: seq<string>, separator: string): string {
    if pieces == [] then ""
    else if |pieces| == 1 then pieces[0]
    else pieces[0] + separator + Join(pieces[1..], separator)
  }

  /** Python's `text.split(c)`. */
  function Split(text: string, c: char): (r: seq<string>)
    ensures r != []
    ensures forall i :: 0 <= i < |r| ==> c !in r[i]
  {
    if text == "" then [""]
    else if text[0] == c then [""] + Split(text[1..], c)
    else
      var rest := Split(text[1..], c);
      [[text[0]] + rest[0]] + rest[1..]
  }

  lemma {:induction false} JoinSnoc(pieces: seq<string>, last: string, separator: string)
    requires pieces != []
    ensures Join(pieces + [last], separator) == Join(pieces, separator) + separator + last
  {
    if |pieces| == 1 {
      assert (pieces + [last])[1..] == [last];
    } else {
      JoinSnoc(pieces[1..], last, separator);
      assert (pieces + [last])[1..] == pieces[1..] + [last];
    }
  }

  lemma {:induction false} SplitWhole(a: string, c: char)
    requires c !in a
    ensures Split(a, c) == [a]
  {
    if a != "" {
      SplitWhole(a[1..], c);
      assert [a[0]] + a[1..] == a;
    }
  }

  lemma {:induction false} SplitFirst(a: string, c: char, rest: string)
    requires c !in a
    ensures Split(a + [c] + rest, c) == [a] + Split(rest, c)
  {
    var text := a + [c] + rest;
    if a == "" {
      assert text == [c] + rest;
      assert text[1..] == rest;
    } else {
      SplitFirst(a[1..], c, rest);
      assert text[1..] == a[1..] + [c] + rest;
      assert [a[0]] + a[1..] == a;
    }
  }

  /** Splitting undoes joining when no piece holds the separator. */
  lemma {:induction false} SplitJoin(pieces: seq<string>, c: char)
    requires pieces != [] && forall i :: 0 <= i < |pieces| ==> c !in pieces[i]
    ensures Split(Join(pieces, [c]), c) == pieces
  {
    if |pieces| == 1 {
      SplitWhole(pieces[0], c);
    } else {
      SplitJoin(pieces[1..], c);
      SplitFirst(pieces[0], c, Join(pieces[1..], [c]));
      assert [pieces[0]] + pieces[1..] == pieces;
    }
  }

  /** Joining undoes splitting, for every text: any text is a join of pieces without the separator. */
  lemma {:induction false} JoinSplit(text: string, c: char)
    ensures Join(Split(text, c), [c]) == text
  {
    if text != "" {
      JoinSplit(text[1..], c);
      var rest := Split(text[1..], c);
      if text[0] == c {
        assert ([""] + rest)[1..] == rest;
        assert text == [c] + text[1..];
      } else {
        assert text == [text[0]] + text[1..];
        assert Split(text, c)[1..] == rest[1..];
      }
    }
  }

  // ---------- Searching ----------

  predicate OccursAt(text: string, piece: string, at: nat) {
    at + |piece| <= |text| && text[at..at + |piece|] == piece
  }

  /** Python's `text.find(piece)`. */
  function Find(text: string, piece: string): (r: int)
    ensures r == -1 || (0 <= r && OccursAt(text, piece, r) && forall j: nat :: j < r ==> !OccursAt(text, piece, j))
    ensures r == -1 ==> forall j: nat :: !OccursAt(text, piece, j)
  {
    FindFrom(text, piece, 0)
  }

  function FindFrom(text: string, piece: string, from: nat): (r: int)
    requires from <= |text| + 1 && forall j: nat :: j < from ==> !OccursAt(text, piece, j)
    ensures r == -1 || (0 <= r && OccursAt(text, piece, r) && forall j: nat :: j < r ==> !OccursAt(text, piece, j))
    ensures r == -1 ==> forall j: nat :: !OccursAt(text, piece, j)
    decreases |text| + 1 - from
  {
    if from > |text| then -1
    else if OccursAt(text, piece, from) then from
    else FindFrom(text, piece, from + 1)
  }

  // ---------- Decimal numerals ----------

  function Digit(d: nat): (c: char)
    requires d < 10
    ensures '0' <= c <= '9'
  {
    "0123456789"[d]
  }

  function Decimal(n: nat): (r: string)
    ensures r != "" && forall i :: 0 <= i < |r| ==> '0' <= r[i] <= '9'
  {
    if n < 10 then [Digit(n)] else Decimal(n / 10) + [Digit(n % 10)]
  }

  /** The number that a sequence of decimal digits denotes. */
  function Value(s: string): int {
    if s == "" then 0 else 10 * Value(s[..|s| - 1]) + (s[|s| - 1] as int - '0' as int)
  }

  /** A numeral denotes its number, and has no leading zero. */
  lemma {:induction false} DecimalValue(n: nat)
    ensures Value(Decimal(n)) == n
    ensures Decimal(n)[0] == '0' <==> n == 0
  {
    DigitValue(n % 10);
    if n >= 10 {
      DecimalValue(n / 10);
      assert Decimal(n)[..|Decimal(n)| - 1] == Decimal(n / 10);
    } else {
      assert Decimal(n) == [Digit(n)];
      assert Value("") == 0;
    }
  }

  lemma DigitValue(d: nat)
    requires d < 10
    ensures Digit(d) as int - '0' as int == d
  {
  }

  lemma DecimalInjective(a: nat, b: nat)
    requires Decimal(a) == Decimal(b)
    ensures a == b
  {
    DecimalValue(a);
    DecimalValue(b);
  }
}
