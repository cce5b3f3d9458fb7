/**
 * Text helpers of State.cpp and State.h: the `split` tokenizer (State.cpp
 * lines 16-33) and the decimal rendering of an `int` that `operator<<`
 * uses for a move's piece label.
 *
 * `split` walks a position `last_pos` through the whole string; searching
 * from `last_pos` is the same as searching the suffix that starts there, so
 * the model recurses on that suffix. After a match at `pos` the source
 * resumes at `pos + 1`; `Tokens` takes that advance as its `step`, which is
 * 1 in `Split` (as written) and the delimiter's length in `SplitCorrected`.
 */
module Text {
  import opened Results

  /** `t` holds the delimiter `d` starting at index `i`. */
  predicate MatchAt(t: string, d: string, i: nat) {
    i + |d| <= |t| && t[i..i + |d|] == d
  }

  /** `d` occurs nowhere in `t`. */
  ghost predicate Free(t: string, d: string) {
    forall i: nat :: !MatchAt(t, d, i)
  }

  /** `std::string::find(d, from)`: the first match at or after `from`. */
  function FindFrom(t: string, d: string, from: nat): (r: Option<nat>)
    decreases |t| - from
    ensures r.Some? ==> from <= r.value && MatchAt(t, d, r.value)
    ensures r.Some? ==> forall i: nat :: from <= i < r.value ==> !MatchAt(t, d, i)
    ensures r.None? ==> forall i: nat :: from <= i ==> !MatchAt(t, d, i)
  {
    if |t| < from + |d| then None
    else if t[from..from + |d|] == d then Some(from)
    else FindFrom(t, d, from + 1)
  }

  /** A token is kept when empty tokens are wanted or when it is non-empty. */
  function Keep(keepEmpty: bool, token: string): (r: seq<string>)
    ensures r == [token] || (r == [] && !keepEmpty && token == [])
  {
    if keepEmpty || |token| > 0 then [token] else []
  }

  /** A text before the first match of `d` holds no match of `d`. */
  lemma BeforeMatchFree(t: string, d: string, pos: nat)
    requires |d| > 0 && pos <= |t|
    requires forall i: nat :: i < pos ==> !MatchAt(t, d, i)
    ensures Free(t[..pos], d)
  {
    forall i: nat | MatchAt(t[..pos], d, i)
      ensures false
    {
      assert t[..pos][i..i + |d|] == t[i..i + |d|];
      assert MatchAt(t, d, i);
    }
  }

  /**
   * The tokens of `t`: the text before each match of `d`, resuming `step`
   * characters after the match, and finally the rest of the text.
   */
  function Tokens(t: string, d: string, keepEmpty: bool, step: nat): (parts: seq<string>)
    requires 1 <= step <= |d|
    decreases |t|
    ensures forall k :: 0 <= k < |parts| ==> Free(parts[k], d)
    ensures keepEmpty ==> |parts| >= 1
    ensures !keepEmpty ==> forall k :: 0 <= k < |parts| ==> |parts[k]| > 0
  {
    match FindFrom(t, d, 0)
    case None =>
      assert t[..|t|] == t;
      BeforeMatchFree(t, d, |t|);
      Keep(keepEmpty, t)
    case Some(pos) =>
      BeforeMatchFree(t, d, pos);
      Keep(keepEmpty, t[..pos]) + Tokens(t[pos + step..], d, keepEmpty, step)
  }

  /** `split` throws `std::out_of_range` from `substr` when the delimiter is empty. */
  datatype SplitError = OutOfRange

  /** `split(s, delim, keep_empty)` as written: it resumes one character after a match. */
  function Split(s: string, delim: string, keepEmpty: bool): (r: Result<seq<string>, SplitError>)
    ensures r.Err? <==> |delim| == 0
    ensures r.Ok? ==> forall k :: 0 <= k < |r.value| ==> Free(r.value[k], delim)
    ensures r.Ok? && keepEmpty ==> |r.value| >= 1
    ensures r.Ok? && !keepEmpty ==> forall k :: 0 <= k < |r.value| ==> |r.value[k]| > 0
  {
    if |delim| == 0 then Err(OutOfRange) else Ok(Tokens(s, delim, keepEmpty, 1))
  }

  /** `split` resuming after the whole delimiter, as a generic tokenizer is meant to. */
  function SplitCorrected(s: string, delim: string, keepEmpty: bool): (r: Result<seq<string>, SplitError>)
    ensures r.Err? <==> |delim| == 0
    ensures r.Ok? ==> forall k :: 0 <= k < |r.value| ==> Free(r.value[k], delim)
    ensures r.Ok? && keepEmpty ==> |r.value| >= 1
    ensures r.Ok? && !keepEmpty ==> forall k :: 0 <= k < |r.value| ==> |r.value[k]| > 0
  {
    if |delim| == 0 then Err(OutOfRange) else Ok(Tokens(s, delim, keepEmpty, |delim|))
  }

  /** The parts written one after another with `d` between neighbours. */
  function Join(parts: seq<string>, d: string): string {
    if |parts| == 0 then []
    else if |parts| == 1 then parts[0]
    else parts[0] + d + Join(parts[1..], d)
  }

  /** The parts that are not empty, in order. */
  function NonEmpty(parts: seq<string>): seq<string> {
    if |parts| == 0 then [] else Keep(false, parts[0]) + NonEmpty(parts[1..])
  }

  /** A one-character delimiter matches exactly where that character stands. */
  lemma CharMatch(t: string, c: char)
    ensures forall i: nat :: MatchAt(t, [c], i) <==> i < |t| && t[i] == c
  {
    forall i: nat | i < |t|
      ensures t[i..i + 1] == [t[i]]
    {
    }
  }

  lemma JoinCons(head: string, tail: seq<string>, d: string)
    requires |tail| >= 1
    ensures Join([head] + tail, d) == head + d + Join(tail, d)
  {
    assert ([head] + tail)[1..] == tail;
  }

  lemma {:induction false} TokensJoin(t: string, d: string)
    requires |d| > 0
    ensures Join(Tokens(t, d, true, |d|), d) == t
    decreases |t|
  {
    var found := FindFrom(t, d, 0);
    if found.Some? {
      var pos := found.value;
      var rest := t[pos + |d|..];
      TokensJoin(rest, d);
      var tail := Tokens(rest, d, true, |d|);
      assert Tokens(t, d, true, |d|) == [t[..pos]] + tail;
      JoinCons(t[..pos], tail, d);
      assert t == t[..pos] + t[pos..pos + |d|] + rest;
    }
  }

  /** Joining the parts of `SplitCorrected` gives back the text, for every delimiter it accepts. */
  lemma SplitCorrectedJoin(s: string, d: string)
    requires |d| > 0
    ensures SplitCorrected(s, d, true).Ok?
    ensures Join(SplitCorrected(s, d, true).value, d) == s
  {
    TokensJoin(s, d);
  }

  /** With a one-character delimiter, joining the parts of `split` gives back the text. */
  lemma SplitJoin(s: string, c: char)
    ensures Split(s, [c], true).Ok?
    ensures Join(Split(s, [c], true).value, [c]) == s
  {
    TokensJoin(s, [c]);
  }

  lemma {:induction false} TokensCount(t: string, c: char)
    ensures |Tokens(t, [c], true, 1)| == multiset(t)[c] + 1
    decreases |t|
  {
    CharMatch(t, c);
    match FindFrom(t, [c], 0)
    case None =>
      assert c !in t;
    case Some(pos) =>
      var head, rest := t[..pos], t[pos + 1..];
      assert Tokens(t, [c], true, 1) == [head] + Tokens(rest, [c], true, 1);
      TokensCount(rest, c);
      assert c !in head;
      CountAroundMatch(t, pos, c);
  }

  /** Splitting the text at an occurrence of `c` with no `c` before it. */
  lemma CountAroundMatch(t: string, pos: nat, c: char)
    requires pos < |t| && t[pos] == c && c !in t[..pos]
    ensures multiset(t)[c] == multiset(t[pos + 1..])[c] + 1
  {
    assert t == t[..pos] + [c] + t[pos + 1..];
    assert multiset(t) == multiset(t[..pos]) + multiset([c]) + multiset(t[pos + 1..]);
  }

  /** With a one-character delimiter, `split` keeping empty tokens returns one more part than the delimiter occurs. */
  lemma SplitCount(s: string, c: char)
    ensures Split(s, [c], true).Ok?
    ensures |Split(s, [c], true).value| == multiset(s)[c] + 1
  {
    TokensCount(s, c);
  }

  /** The search for a one-character delimiter stops at its first occurrence. */
  lemma FindAfterHead(head: string, rest: string, c: char)
    requires c !in head
    ensures FindFrom(head + [c] + rest, [c], 0) == Some(|head|)
  {
    var t := head + [c] + rest;
    CharMatch(t, c);
    assert t[|head|] == c;
    assert forall i :: 0 <= i < |head| ==> t[i] == head[i];
  }

  lemma {:induction false} JoinTokens(parts: seq<string>, c: char)
    requires |parts| >= 1
    requires forall k :: 0 <= k < |parts| ==> c !in parts[k]
    ensures Tokens(Join(parts, [c]), [c], true, 1) == parts
    decreases |parts|
  {
    if |parts| == 1 {
      CharMatch(parts[0], c);
      assert FindFrom(parts[0], [c], 0).None?;
    } else {
      var head, tail := parts[0], parts[1..];
      assert Join(parts, [c]) == head + [c] + Join(tail, [c]);
      TokensAtFirst(head, Join(tail, [c]), c);
      JoinTokens(tail, c);
      assert parts == [head] + tail;
    }
  }

  /** The first token of a text is everything before the first delimiter. */
  lemma TokensAtFirst(head: string, rest: string, c: char)
    requires c !in head
    ensures Tokens(head + [c] + rest, [c], true, 1) == [head] + Tokens(rest, [c], true, 1)
  {
    var t := head + [c] + rest;
    FindAfterHead(head, rest, c);
    assert t[..|head|] == head;
    assert t[|head| + 1..] == rest;
  }

  /**
   * With a one-character delimiter absent from every part, `split` of the
   * joined parts gives back the parts, empty ones included.
   */
  lemma JoinSplit(parts: seq<string>, c: char)
    requires |parts| >= 1
    requires forall k :: 0 <= k < |parts| ==> c !in parts[k]
    ensures Split(Join(parts, [c]), [c], true) == Ok(parts)
  {
    JoinTokens(parts, c);
  }

  lemma {:induction false} TokensDropEmpty(t: string, d: string, step: nat)
    requires 1 <= step <= |d|
    ensures Tokens(t, d, false, step) == NonEmpty(Tokens(t, d, true, step))
    decreases |t|
  {
    match FindFrom(t, d, 0)
    case None =>
      assert NonEmpty([t]) == Keep(false, t) + NonEmpty([]);
    case Some(pos) =>
      var rest := t[pos + step..];
      TokensDropEmpty(rest, d, step);
      var tail := Tokens(rest, d, true, step);
      assert ([t[..pos]] + tail)[1..] == tail;
      assert NonEmpty([t[..pos]] + tail) == Keep(false, t[..pos]) + NonEmpty(tail);
  }

  /** Leaving out empty tokens gives exactly the non-empty parts of the full split. */
  lemma SplitDropsEmpty(s: string, d: string)
    requires |d| > 0
    ensures Split(s, d, false).Ok? && Split(s, d, true).Ok?
    ensures Split(s, d, false).value == NonEmpty(Split(s, d, true).value)
  {
    TokensDropEmpty(s, d, 1);
  }

  /**
   * With the two-character delimiter "::" the source resumes inside the
   * delimiter: "a::b" splits into "a" and ":b", and joining those does not
   * give back the text. The corrected split yields "a" and "b".
   */
  lemma SplitMultiCharDelimiter()
    ensures Split("a::b", "::", true) == Ok(["a", ":b"])
    ensures Join(["a", ":b"], "::") != "a::b"
    ensures SplitCorrected("a::b", "::", true) == Ok(["a", "b"])
  {
    var t := "a::b";
    assert t[0..2][0] == 'a';
    assert t[1..3] == "::";
    assert FindFrom(t, "::", 0) == Some(1);
    assert t[..1] == "a";
    var rest := t[2..];
    assert rest == ":b";
    assert rest[0..2][1] == 'b';
    assert FindFrom(rest, "::", 0) == None;
    assert Tokens(rest, "::", true, 1) == [":b"];
    assert Tokens(t, "::", true, 1) == ["a"] + Tokens(rest, "::", true, 1);
    assert t[3..] == "b";
    assert FindFrom("b", "::", 0) == None;
    assert Tokens("b", "::", true, 2) == ["b"];
    assert Tokens(t, "::", true, 2) == ["a"] + Tokens("b", "::", true, 2);
    assert ["a"] + [":b"] == ["a", ":b"] && ["a"] + ["b"] == ["a", "b"];
    assert Split(t, "::", true) == Ok(Tokens(t, "::", true, 1));
    assert SplitCorrected(t, "::", true) == Ok(Tokens(t, "::", true, 2));
    assert Join(["a", ":b"], "::") == "a:::b";
  }

  // Decimal rendering of integers.

  predicate IsDigit(c: char) {
    '0' <= c <= '9'
  }

  function DigitChar(n: nat): (c: char)
    requires n < 10
    ensures IsDigit(c)
  {
    (('0' as int) + n) as char
  }

  function DigitValue(c: char): (n: nat)
    requires IsDigit(c)
    ensures n < 10 && DigitChar(n) == c
  {
    (c as int) - ('0' as int)
  }

  predicate AllDigits(t: string) {
    forall i | 0 <= i < |t| :: IsDigit(t[i])
  }

  /** The value of a non-empty run of decimal digits, most significant first. */
  function DigitsValue(t: string): nat
    requires |t| > 0 && AllDigits(t)
  {
    if |t| == 1 then DigitValue(t[0])
    else DigitsValue(t[..|t| - 1]) * 10 + DigitValue(t[|t| - 1])
  }

  /** How `operator<<` writes a non-negative `int`. */
  function NatText(n: nat): (t: string)
    ensures |t| > 0 && AllDigits(t)
  {
    if n < 10 then [DigitChar(n)] else NatText(n / 10) + [DigitChar(n % 10)]
  }

  /** How `operator<<` writes an `int`: a minus sign before negative values. */
  function IntText(n: int): (t: string)
    ensures |t| > 0
  {
    if n < 0 then "-" + NatText(-n) else NatText(n)
  }

  function ParseNat(t: string): (r: Option<nat>)
    ensures r.Some? <==> |t| > 0 && AllDigits(t)
  {
    if |t| > 0 && AllDigits(t) then Some(DigitsValue(t)) else None
  }

  /** Reads the text `IntText` writes. */
  function ParseInt(t: string): Option<int> {
    if |t| > 0 && t[0] == '-' then
      match ParseNat(t[1..])
      case Some(v) => Some(0 - v)
      case None => None
    else
      match ParseNat(t)
      case Some(v) => Some(v)
      case None => None
  }

  lemma {:induction false} NatTextValue(n: nat)
    ensures DigitsValue(NatText(n)) == n
    decreases n
  {
    if n >= 10 {
      NatTextValue(n / 10);
      var t := NatText(n);
      assert t[..|t| - 1] == NatText(n / 10);
      assert DigitValue(t[|t| - 1]) == n % 10;
    }
  }

  /** Every integer's text reads back as that integer. */
  lemma IntTextRoundTrip(n: int)
    ensures ParseInt(IntText(n)) == Some(n)
  {
    var t := IntText(n);
    if n < 0 {
      assert t == "-" + NatText(-n);
      assert t[1..] == NatText(-n);
      ParseNatText(-n);
    } else {
      assert t == NatText(n) && IsDigit(t[0]);
      ParseNatText(n);
    }
  }

  /** The digits of a non-negative `int` read back as that value. */
  lemma ParseNatText(n: nat)
    ensures ParseNat(NatText(n)) == Some(n)
  {
    NatTextValue(n);
  }
}
