/**
 * The integer part of `read_Bowtie_stats` (utils/utils.py): a Bowtie2
 * alignment summary, split at '\n', must have exactly seven lines; the first
 * whitespace-separated token of each of lines 0-4 is read as an integer.
 */
module BowtieStats {
  import opened Wrappers

  /** Python's `str.isspace` on ASCII: space, '\t' '\n' '\v' '\f' '\r' and the separators 0x1c-0x1f. */
  predicate IsSpace(ch: char) {
    ch == ' ' || 9 <= ch as int <= 13 || 28 <= ch as int <= 31
  }

  predicate IsDigit(ch: char) {
    '0' <= ch <= '9'
  }

  predicate AllSpaces(s: string) {
    forall i :: 0 <= i < |s| ==> IsSpace(s[i])
  }

  predicate AllDigits(s: string) {
    forall i :: 0 <= i < |s| ==> IsDigit(s[i])
  }

  /** The longest prefix of `s` free of whitespace. */
  function TakeWord(s: string): (w: string)
    ensures |w| <= |s| && w == s[..|w|]
    ensures forall i :: 0 <= i < |w| ==> !IsSpace(w[i])
    ensures |w| == |s| || IsSpace(s[|w|])
  {
    if s == [] || IsSpace(s[0]) then [] else [s[0]] + TakeWord(s[1..])
  }

  /** `line.split()[0]`; None where Python raises IndexError (a blank line). */
  function FirstToken(line: string): (r: Option<string>)
    ensures r.None? <==> AllSpaces(line)
    ensures r.Some? ==> r.value != [] && forall i :: 0 <= i < |r.value| ==> !IsSpace(r.value[i])
  {
    if line == [] then None
    else if IsSpace(line[0]) then FirstToken(line[1..])
    else Some(TakeWord(line))
  }

  /** The value of a decimal numeral, most significant digit first. */
  function DigitsValue(s: string): nat
    requires AllDigits(s)
  {
    if s == [] then 0 else DigitsValue(s[..|s| - 1]) * 10 + (s[|s| - 1] as int - '0' as int)
  }

  /** Python's `int(token)` on a token without whitespace: an optional sign and at least one digit; None where Python raises ValueError. */
  function ParseInt(token: string): (r: Option<int>)
    ensures r.Some? ==> token != []
    ensures r.Some? && IsDigit(token[0]) ==> r.value >= 0
  {
    var negative := token != [] && token[0] == '-';
    var digits := if token != [] && (token[0] == '-' || token[0] == '+') then token[1..] else token;
    if digits != [] && AllDigits(digits) then
      var magnitude: int := DigitsValue(digits);
      Some(if negative then -magnitude else magnitude)
    else
      None
  }

  /** How a line can fail to hold a count. */
  datatype LineProblem = Blank | NotAnInteger

  datatype ReportError =
    | WrongLineCount(count: nat)
    | BadLine(index: nat, problem: LineProblem)
    | ZeroTotal  // the percentages divide by a total of 0

  /** `int(line.split()[0])`, with the exception Python would raise as the error. */
  function LeadingCount(line: string): (r: Result<int, LineProblem>)
    ensures r == Failure(Blank) <==> AllSpaces(line)
  {
    match FirstToken(line)
    case None => Failure(Blank)
    case Some(token) =>
      match ParseInt(token)
      case None => Failure(NotAnInteger)
      case Some(v) => Success(v)
  }

  /** The counts of a Bowtie2 summary; `overall` is the number of reads aligned at least once. */
  datatype Stats = Stats(total: int, unpaired: int, zeroTimes: int, oneTime: int, multi: int, overall: int)

  /** Each of the first `k` (at most five) lines starts with an integer. */
  predicate ReadableBefore(lines: seq<string>, k: nat)
    requires k <= 5 <= |lines|
  {
    && (k > 0 ==> LeadingCount(lines[0]).Success?)
    && (k > 1 ==> LeadingCount(lines[1]).Success?)
    && (k > 2 ==> LeadingCount(lines[2]).Success?)
    && (k > 3 ==> LeadingCount(lines[3]).Success?)
    && (k > 4 ==> LeadingCount(lines[4]).Success?)
  }

  /**
   * `read_Bowtie_stats` up to its percentages: the five counts of lines 0-4
   * and `overall = 1time + multi`. A report of any other length than seven
   * lines yields no stats; the first line among 0-4 that is blank or does not
   * start with an integer aborts the parse; a total of 0 then aborts the
   * percentages, which divide by it.
   */
  method ReadBowtieStats(lines: seq<string>) returns (r: Result<Stats, ReportError>)
    ensures |lines| != 7 <==> r == Failure(WrongLineCount(|lines|))
    ensures r.Success? <==> |lines| == 7 && ReadableBefore(lines, 5) && LeadingCount(lines[0]) != Success(0)
    ensures r == Failure(ZeroTotal) <==> |lines| == 7 && ReadableBefore(lines, 5) && LeadingCount(lines[0]) == Success(0)
    ensures r.Success? ==>
      && Success(r.value.total) == LeadingCount(lines[0])
      && Success(r.value.unpaired) == LeadingCount(lines[1])
      && Success(r.value.zeroTimes) == LeadingCount(lines[2])
      && Success(r.value.oneTime) == LeadingCount(lines[3])
      && Success(r.value.multi) == LeadingCount(lines[4])
      && r.value.overall == r.value.oneTime + r.value.multi
    ensures r.Failure? && |lines| == 7 && r != Failure(ZeroTotal) ==>
      && r.error.BadLine?
      && r.error.index < 5
      && LeadingCount(lines[r.error.index]) == Failure(r.error.problem)
      && ReadableBefore(lines, r.error.index)
  {
    if |lines| != 7 {
      return Failure(WrongLineCount(|lines|));
    }
    var total := LeadingCount(lines[0]);
    if total.Failure? {
      return Failure(BadLine(0, total.error));
    }
    var unpaired := LeadingCount(lines[1]);
    if unpaired.Failure? {
      return Failure(BadLine(1, unpaired.error));
    }
    var zeroTimes := LeadingCount(lines[2]);
    if zeroTimes.Failure? {
      return Failure(BadLine(2, zeroTimes.error));
    }
    var oneTime := LeadingCount(lines[3]);
    if oneTime.Failure? {
      return Failure(BadLine(3, oneTime.error));
    }
    var multi := LeadingCount(lines[4]);
    if multi.Failure? {
      return Failure(BadLine(4, multi.error));
    }
    var overall := oneTime.value + multi.value;
    if total.value == 0 {
      return Failure(ZeroTotal);
    }
    r := Success(Stats(total.value, unpaired.value, zeroTimes.value, oneTime.value, multi.value, overall));
  }

  /** The decimal numeral of `n` without leading zeros. */
  function Decimal(n: nat): (s: string)
    ensures s != [] && AllDigits(s)
  {
    var d := ['0' + (n % 10) as char];
    if n < 10 then d else Decimal(n / 10) + d
  }

  /** The numeral Python's `str` gives an integer. */
  function IntToString(n: int): (s: string)
  {
    if n < 0 then "-" + Decimal(-n) else Decimal(n)
  }

  lemma {:induction false} DecimalValue(n: nat)
    ensures DigitsValue(Decimal(n)) == n
  {
    var s := Decimal(n);
    if n >= 10 {
      DecimalValue(n / 10);
      assert s[..|s| - 1] == Decimal(n / 10);
    }
  }

  /** Parsing the numeral of an integer gives the integer back. */
  lemma ParseIntRoundTrip(n: int)
    ensures ParseInt(IntToString(n)) == Some(n)
  {
    if n < 0 {
      DecimalValue(-n);
      assert IntToString(n)[1..] == Decimal(-n);
    } else {
      DecimalValue(n);
    }
  }

  /** The first token of indentation, a word and a tail that starts with whitespace is the word. */
  lemma {:induction false} FirstTokenOf(indent: string, word: string, tail: string)
    requires AllSpaces(indent)
    requires word != [] && forall i :: 0 <= i < |word| ==> !IsSpace(word[i])
    requires tail == [] || IsSpace(tail[0])
    ensures FirstToken(indent + word + tail) == Some(word)
  {
    if indent == [] {
      assert indent + word + tail == word + tail;
      TakeWordOf(word, tail);
    } else {
      assert (indent + word + tail)[1..] == indent[1..] + word + tail;
      FirstTokenOf(indent[1..], word, tail);
    }
  }

  lemma {:induction false} TakeWordOf(word: string, tail: string)
    requires forall i :: 0 <= i < |word| ==> !IsSpace(word[i])
    requires tail == [] || IsSpace(tail[0])
    ensures TakeWord(word + tail) == word
  {
    if word != [] {
      assert (word + tail)[1..] == word[1..] + tail;
      TakeWordOf(word[1..], tail);
    }
  }

  /** A line that starts, after indentation, with the numeral of `n` reads as `n`. */
  lemma ReportLineRoundTrip(indent: string, n: int, tail: string)
    requires AllSpaces(indent)
    requires tail == [] || IsSpace(tail[0])
    ensures LeadingCount(indent + IntToString(n) + tail) == Success(n)
  {
    var word := IntToString(n);
    assert forall i :: 0 <= i < |word| ==> !IsSpace(word[i]) by {
      assert AllDigits(Decimal(if n < 0 then -n else n));
      if n < 0 {
        assert word == "-" + Decimal(-n);
        assert forall i :: 1 <= i < |word| ==> word[i] == Decimal(-n)[i - 1];
      }
    }
    FirstTokenOf(indent, word, tail);
    ParseIntRoundTrip(n);
  }
}
