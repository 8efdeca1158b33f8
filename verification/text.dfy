/**
 * The two pieces of Swift string handling the GeoTIFF tags rely on:
 * `split(separator: "|")` for `geoAsciiParams` and `Int(_:)` for the GDAL
 * no-data value. Each comes with the writer it inverts.
 */
module Text {
  import opened Errors
  import opened SwiftInt

  /** The separator between the citations of `geoAsciiParams`. */
  const Bar: char := '|'

  /** The index of the first separator in `s`, or `|s|` when there is none. */
  function FirstBar(s: string): (i: nat)
    ensures i <= |s|
    ensures i < |s| ==> s[i] == Bar
    ensures forall k :: 0 <= k < i ==> s[k] != Bar
  {
    if |s| == 0 || s[0] == Bar then 0 else 1 + FirstBar(s[1..])
  }

  /**
   * `s.split(separator: "|")` with Swift's defaults: the maximal runs
   * between separators, empty runs omitted.
   */
  function Split(s: string): (pieces: seq<string>)
    ensures forall p :: p in pieces ==> |p| > 0 && Bar !in p
    decreases |s|
  {
    if |s| == 0 then []
    else
      var i := FirstBar(s);
      var head := if i > 0 then [s[..i]] else [];
      if i == |s| then head else head + Split(s[i + 1..])
  }

  /** The pieces joined with one separator between neighbours. */
  function Join(pieces: seq<string>): (s: string)
    ensures |pieces| == 0 ==> s == []
  {
    if |pieces| == 0 then []
    else if |pieces| == 1 then pieces[0]
    else pieces[0] + [Bar] + Join(pieces[1..])
  }

  /** A piece `Split` can produce. */
  predicate IsPiece(p: string) {
    |p| > 0 && Bar !in p
  }

  /** Splitting inverts joining, for every list of pieces `Split` can produce. */
  lemma {:induction false} SplitJoin(pieces: seq<string>)
    requires forall i :: 0 <= i < |pieces| ==> IsPiece(pieces[i])
    ensures Split(Join(pieces)) == pieces
    decreases |pieces|
  {
    if |pieces| == 1 {
      var p := pieces[0];
      assert FirstBar(p) == |p|;
      assert p[..|p|] == p;
    } else if |pieces| > 1 {
      var p, rest := pieces[0], Join(pieces[1..]);
      var s := p + [Bar] + rest;
      assert s == Join(pieces);
      var i := FirstBar(s);
      assert s[|p|] == Bar;
      assert i == |p|;
      assert s[..i] == p;
      assert s[i + 1..] == rest;
      SplitJoin(pieces[1..]);
    }
  }

  /**
   * The reference meaning of splitting and re-joining, read one character at
   * a time: every run of separators between two other characters becomes a
   * single separator, and separators before the first or after the last
   * other character vanish. `pending` records a run of separators not yet
   * written, `started` whether any other character has been written.
   */
  function Squash(s: string, pending: bool, started: bool): string
    decreases |s|
  {
    if |s| == 0 then []
    else if s[0] == Bar then Squash(s[1..], started, started)
    else (if pending then [Bar] else []) + [s[0]] + Squash(s[1..], false, true)
  }

  /** `s` with its separator runs collapsed and trimmed. */
  function Collapse(s: string): string {
    Squash(s, false, false)
  }

  /** A run without separators is copied through, after any pending separator. */
  lemma {:induction false} SquashPiece(p: string, t: string, pending: bool, started: bool)
    requires IsPiece(p)
    ensures Squash(p + t, pending, started) == (if pending then [Bar] else []) + p + Squash(t, false, true)
    decreases |p|
  {
    var s := p + t;
    assert s[0] == p[0] && s[1..] == p[1..] + t;
    if |p| > 1 {
      SquashPiece(p[1..], t, false, true);
      assert p == [p[0]] + p[1..];
    } else {
      assert p == [p[0]] && s[1..] == t;
    }
  }

  /**
   * Joining the pieces of a split gives the text with its separator runs
   * collapsed and trimmed; after a piece has been written, the same holds
   * with a leading separator whenever a further piece follows.
   */
  lemma {:induction false} JoinSplitSquash(s: string)
    ensures Join(Split(s)) == Squash(s, false, false)
    ensures Squash(s, true, true) == if Split(s) == [] then [] else [Bar] + Join(Split(s))
    decreases |s|
  {
    if |s| > 0 {
      var i := FirstBar(s);
      if i == 0 {
        assert Split(s) == Split(s[1..]);
        JoinSplitSquash(s[1..]);
      } else if i == |s| {
        SplitWhole(s);
      } else {
        var p, t := s[..i], s[i + 1..];
        JoinSplitSquash(t);
        FirstPiece(s, i);
        AroundBar(s, i);
        assert Split(s) == [p] + Split(t);
        SquashJoinPiece(p, t, Split(t));
      }
    }
  }

  /** A text without separators is one piece. */
  lemma SplitWhole(s: string)
    requires |s| > 0 && FirstBar(s) == |s|
    ensures Split(s) == [s]
    ensures Squash(s, false, false) == s && Squash(s, true, true) == [Bar] + s
  {
    assert s[..|s|] == s;
    assert s + [] == s;
    SquashPiece(s, [], false, false);
    SquashPiece(s, [], true, true);
  }

  /** The run before the first separator, when not empty, is a piece. */
  lemma FirstPiece(s: string, i: nat)
    requires 0 < i == FirstBar(s) <= |s|
    ensures IsPiece(s[..i])
  {
    assert forall k :: 0 <= k < i ==> s[..i][k] == s[k];
  }

  /** A text is what comes before a separator, the separator and what follows it. */
  lemma AroundBar(s: string, i: nat)
    requires i < |s| && s[i] == Bar
    ensures s == s[..i] + ([Bar] + s[i + 1..])
  {
    var u := s[i..];
    assert s == s[..i] + u;
    assert u == [Bar] + s[i + 1..] by {
      assert u[0] == Bar && u[1..] == s[i + 1..];
    }
  }

  /** A piece, a separator and a rest whose pieces are known squash to the joined pieces. */
  lemma SquashJoinPiece(p: string, t: string, rest: seq<string>)
    requires IsPiece(p)
    requires Squash(t, true, true) == if rest == [] then [] else [Bar] + Join(rest)
    ensures Join([p] + rest) == Squash(p + ([Bar] + t), false, false)
    ensures Squash(p + ([Bar] + t), true, true) == [Bar] + Join([p] + rest)
  {
    var u := [Bar] + t;
    var tail := Squash(t, true, true);
    assert Squash(u, false, true) == tail by {
      assert u[1..] == t;
    }
    SquashPiece(p, u, false, false);
    SquashPiece(p, u, true, true);
    JoinCons(p, rest);
    Glue(p, tail, Join([p] + rest), if rest == [] then [] else Join(rest), rest == [],
      Squash(p + u, false, false), Squash(p + u, true, true));
  }

  /** The sequence bookkeeping behind `SquashJoinPiece`, with the recursion factored out. */
  lemma Glue(p: string, tail: string, joined: string, later: string, last: bool, squashed: string, led: string)
    requires squashed == p + tail && led == [Bar] + p + tail
    requires last ==> tail == [] && joined == p
    requires !last ==> tail == [Bar] + later && joined == p + [Bar] + later
    ensures joined == squashed && led == [Bar] + joined
  {
  }

  /** Joining a piece in front of others puts one separator between them. */
  lemma JoinCons(p: string, rest: seq<string>)
    ensures Join([p] + rest) == if rest == [] then p else p + [Bar] + Join(rest)
  {
    assert ([p] + rest)[1..] == rest;
  }

  /** `split(separator: "|")` joined back is the text with separator runs collapsed and trimmed. */
  lemma JoinSplit(s: string)
    ensures Join(Split(s)) == Collapse(s)
  {
    JoinSplitSquash(s);
  }

  /** The decimal digit characters. */
  predicate IsDigit(c: char) {
    '0' <= c <= '9'
  }

  predicate AllDigits(s: string) {
    forall i :: 0 <= i < |s| ==> IsDigit(s[i])
  }

  /** The value of a run of decimal digits, most significant first. */
  function DigitsValue(s: string): nat
    requires AllDigits(s)
  {
    if |s| == 0 then 0 else DigitsValue(s[..|s| - 1]) * 10 + (s[|s| - 1] as int - '0' as int)
  }

  /**
   * `Int(_:)` on a `String`: an optional `+` or `-`, then one or more
   * decimal digits and nothing else; `nil` when the text has any other
   * shape or its value does not fit in `Int`.
   */
  function ParseInt(s: string): (res: Option<int>)
    ensures res.Some? ==> InInt64(res.value)
    ensures |s| == 0 ==> res.None?
    ensures res.Some? && s[0] != '-' ==> res.value >= 0
  {
    if |s| == 0 then None
    else
      var negative := s[0] == '-';
      var digits := if s[0] == '-' || s[0] == '+' then s[1..] else s;
      if |digits| == 0 || !AllDigits(digits) then None
      else
        var d: int := DigitsValue(digits);
        var v := if negative then -d else d;
        if InInt64(v) then Some(v) else None
  }

  /** The signs `Int(_:)` accepts in front of the digits. */
  predicate IsSign(sign: string) {
    sign == "" || sign == "+" || sign == "-"
  }

  /** The number a sign and a digit value denote. */
  function Signed(sign: string, magnitude: nat): int {
    if sign == "-" then -(magnitude as int) else magnitude
  }

  /** A sign followed by one or more digits parses to their value, when it fits in `Int`. */
  lemma ParseSignedDigits(sign: string, digits: string)
    requires IsSign(sign) && |digits| > 0 && AllDigits(digits)
    ensures ParseInt(sign + digits) == if InInt64(Signed(sign, DigitsValue(digits))) then Some(Signed(sign, DigitsValue(digits))) else None
  {
    var s := sign + digits;
    if sign == "" {
      assert s == digits;
      assert s[0] != '-' && s[0] != '+' by {
        assert IsDigit(digits[0]);
      }
    } else {
      assert s[0] == sign[0] && s[1..] == digits;
    }
  }

  /** Every text `Int(_:)` accepts is a sign and digits, and denotes their value. */
  lemma ParseIntIsSignedDigits(s: string)
    requires ParseInt(s).Some?
    ensures exists sign, digits :: IsSign(sign) && |digits| > 0 && AllDigits(digits) && s == sign + digits && ParseInt(s).value == Signed(sign, DigitsValue(digits))
  {
    var sign := if s[0] == '-' || s[0] == '+' then s[..1] else "";
    var digits := if s[0] == '-' || s[0] == '+' then s[1..] else s;
    assert s == sign + digits;
  }

  /** The shortest decimal digits of `n`. */
  function FormatNat(n: nat): (s: string)
    ensures |s| > 0 && AllDigits(s)
  {
    if n < 10 then [('0' as int + n) as char]
    else FormatNat(n / 10) + [('0' as int + n % 10) as char]
  }

  /** `String(n)`: a minus sign for negatives, then the digits of the magnitude. */
  function FormatInt(n: int): string {
    if n < 0 then "-" + FormatNat(-n) else FormatNat(n)
  }

  lemma {:induction false} DigitsOfFormatNat(n: nat)
    ensures DigitsValue(FormatNat(n)) == n
  {
    var s := FormatNat(n);
    if n >= 10 {
      DigitsOfFormatNat(n / 10);
      assert s[..|s| - 1] == FormatNat(n / 10);
    }
  }

  /** `Int(_:)` reads back every `Int` that `String(_:)` writes. */
  lemma ParseFormatInt(n: int)
    requires InInt64(n)
    ensures ParseInt(FormatInt(n)) == Some(n)
  {
    var m := if n < 0 then -n else n;
    DigitsOfFormatNat(m);
    if n < 0 {
      assert FormatInt(n)[1..] == FormatNat(m);
    }
  }
}
