/**
 * The few JavaScript string operations the orphans task relies on:
 * `String.prototype.replace` with a string pattern and an empty replacement,
 * `String.prototype.substr(1)`, and the decimal rendering of a count when it
 * is concatenated into a message.
 */
module JsStrings {
  import opened Wrappers

  /** `pattern` occurs in `s` starting at index `i`. */
  predicate OccursAt(s: string, pattern: string, i: nat) {
    i + |pattern| <= |s| && s[i..i + |pattern|] == pattern
  }

  /** First index at or after `from` where `pattern` occurs in `s`; None where JavaScript's indexOf gives -1. */
  function IndexOfFrom(s: string, pattern: string, from: nat): (r: Option<nat>)
    ensures r.Some? ==> from <= r.value && OccursAt(s, pattern, r.value)
    ensures r.Some? ==> forall j: nat :: from <= j < r.value ==> !OccursAt(s, pattern, j)
    ensures r.None? ==> forall j: nat :: from <= j ==> !OccursAt(s, pattern, j)
    decreases |s| - from
  {
    if from + |pattern| > |s| then None
    else if s[from..from + |pattern|] == pattern then Some(from)
    else IndexOfFrom(s, pattern, from + 1)
  }

  /** Index of the first occurrence of `pattern` in `s`. */
  function IndexOf(s: string, pattern: string): Option<nat> {
    IndexOfFrom(s, pattern, 0)
  }

  /**
   * `s.replace(pattern, '')` for a string pattern: only the first occurrence
   * is removed, wherever it is; a string without the pattern comes back as it is.
   */
  function ReplaceFirst(s: string, pattern: string): (r: string)
    ensures (forall j: nat :: !OccursAt(s, pattern, j)) ==> r == s
    ensures (exists j: nat :: OccursAt(s, pattern, j)) ==> |r| + |pattern| == |s|
    ensures pattern <= s ==> r == s[|pattern|..]
    ensures forall i: nat :: OccursAt(s, pattern, i) && (forall j: nat :: j < i ==> !OccursAt(s, pattern, j)) ==>
              r == s[..i] + s[i + |pattern|..]
  {
    match IndexOf(s, pattern)
    case None => s
    case Some(i) => s[..i] + s[i + |pattern|..]
  }

  /** `s.substr(1)`: drops the first character; the empty string stays empty. */
  function DropFirst(s: string): (r: string)
    ensures |s| > 0 ==> [s[0]] + r == s
    ensures |s| == 0 ==> r == []
  {
    if |s| == 0 then s else s[1..]
  }

  predicate IsDigit(c: char) {
    '0' <= c <= '9'
  }

  function DigitChar(d: nat): (c: char)
    requires d < 10
    ensures IsDigit(c) && (c as int) - ('0' as int) == d
  {
    ('0' as int + d) as char
  }

  /** The decimal text JavaScript produces when a count `n` is concatenated to a string. */
  function DecimalString(n: nat): (r: string)
    ensures |r| > 0
    ensures forall i :: 0 <= i < |r| ==> IsDigit(r[i])
    ensures r[0] == '0' ==> n == 0
    decreases n
  {
    if n < 10 then [DigitChar(n)] else DecimalString(n / 10) + [DigitChar(n % 10)]
  }

  /** Reads a string of decimal digits back as a number. */
  function ParseDecimal(s: string): nat
    requires forall i :: 0 <= i < |s| ==> IsDigit(s[i])
    decreases |s|
  {
    if s == [] then 0
    else assert IsDigit(s[|s| - 1]); ParseDecimal(s[..|s| - 1]) * 10 + ((s[|s| - 1] as int) - ('0' as int))
  }

  /** The rendered count reads back as the count. */
  lemma {:induction false} ParseDecimalString(n: nat)
    ensures ParseDecimal(DecimalString(n)) == n
    decreases n
  {
    if n >= 10 {
      var r := DecimalString(n);
      assert r[..|r| - 1] == DecimalString(n / 10);
      ParseDecimalString(n / 10);
    }
  }

  /** Removal happens at the first occurrence even when it is not at the start. */
  lemma ReplaceFirstNotOnlyAtStart()
    ensures ReplaceFirst("lib/src/a.js", "src") == "lib//a.js"
  {
    var s := "lib/src/a.js";
    FirstOccurrenceInside();
    assert s[..4] + s[7..] == "lib//a.js";
  }

  lemma FirstOccurrenceInside()
    ensures IndexOf("lib/src/a.js", "src") == Some(4)
  {
    var s := "lib/src/a.js";
    assert s[4..7] == "src";
    assert IndexOfFrom(s, "src", 3) == Some(4) by { assert s[3..6][0] == s[3]; }
    assert IndexOfFrom(s, "src", 2) == Some(4) by { assert s[2..5][0] == s[2]; }
    assert IndexOfFrom(s, "src", 1) == Some(4) by { assert s[1..4][0] == s[1]; }
    assert IndexOfFrom(s, "src", 0) == Some(4) by { assert s[0..3][0] == s[0]; }
  }
}
