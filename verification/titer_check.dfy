/**
 * The titer-string validator of the antigenic-cartography core.
 *
 * A titer is a single reactivity measurement written as text: `*` for a
 * missing value, or an optional `<`/`>` censoring mark followed by a
 * positive decimal magnitude. The validator walks the string the way the
 * source does: the `*` exemption, then stripping one censoring mark, then a
 * leading-zero test and a search for the first non-digit character.
 */
module TiterCheck {
  import opened Wrappers
  import opened Decimal

  /**
   * Why a titer string was refused. `OutOfRange` is the out-of-range
   * exception raised by reading the first character of an empty string
   * (the empty input, or a bare `<` or `>`); `InvalidTiter` is the
   * validator's own error, carrying the message string it builds before
   * handing it to the host's error routine.
   */
  datatype CheckError = OutOfRange | InvalidTiter(message: string)

  /** The message built for a refused titer, quoting what was left after stripping. */
  function InvalidMessage(remainder: string): string {
    "Invalid titer '" + remainder + "'"
  }

  predicate IsCensorMark(c: char) {
    c == '<' || c == '>'
  }

  /** Removes one leading `<` or `>`, if there is one. */
  function StripPrefix(titer: string): (rest: string)
    ensures |titer| > 0 && IsCensorMark(titer[0]) ==> titer == [titer[0]] + rest
    ensures !(|titer| > 0 && IsCensorMark(titer[0])) ==> rest == titer
  {
    if |titer| > 0 && IsCensorMark(titer[0]) then titer[1..] else titer
  }

  /**
   * The position of the first character of `s` that is not in `chars`, or
   * `None` when there is none (the "npos" answer).
   */
  function FindFirstNotOf(s: string, chars: string): (r: Option<nat>)
    ensures r.None? <==> forall i :: 0 <= i < |s| ==> s[i] in chars
    ensures r.Some? ==> r.value < |s| && s[r.value] !in chars
    ensures r.Some? ==> forall j :: 0 <= j < r.value ==> s[j] in chars
  {
    if |s| == 0 then None
    else if s[0] !in chars then Some(0)
    else
      match FindFirstNotOf(s[1..], chars)
      case None => None
      case Some(k) => Some(k + 1)
  }

  /**
   * The source's validator: `Pass` for an acceptable titer string, otherwise
   * the out-of-range error or the invalid-titer error with its built message.
   */
  function CheckValidTiter(titer: string): (r: Outcome<CheckError>)
    ensures r == Fail(OutOfRange) <==> titer == "" || titer == "<" || titer == ">"
    ensures r.Fail? && r.error.InvalidTiter? ==> r.error.message == InvalidMessage(StripPrefix(titer))
    ensures |titer| > 1 && titer[0] == '*' ==> r == Fail(InvalidTiter(InvalidMessage(titer)))
  {
    if |titer| == 0 then Fail(OutOfRange)
    else if titer[0] == '*' && |titer| == 1 then Pass
    else
      var rest := StripPrefix(titer);
      if |rest| == 0 then Fail(OutOfRange)
      else if rest[0] == '0' || FindFirstNotOf(rest, DigitChars).Some? then
        Fail(InvalidTiter(InvalidMessage(rest)))
      else Pass
  }

  /** The censoring mark a titer string may start with. */
  datatype Bound = Exact | Below | Above

  function Mark(b: Bound): string {
    match b
    case Exact => ""
    case Below => "<"
    case Above => ">"
  }

  /** The text of a titer with censoring `b` and magnitude `n`. */
  function Render(b: Bound, n: nat): string {
    Mark(b) + ToDecimal(n)
  }

  /**
   * The titer grammar, stated independently of the validator: the missing
   * marker `*`, or the rendering of a positive magnitude with an optional
   * censoring mark.
   */
  ghost predicate WellFormed(s: string) {
    s == "*" || exists b: Bound, n: nat :: 1 <= n && s == Render(b, n)
  }

  /** A string of the titer grammar determines its censoring mark and its magnitude. */
  lemma RenderUnique(b1: Bound, n1: nat, b2: Bound, n2: nat)
    requires 1 <= n1 && 1 <= n2
    requires Render(b1, n1) == Render(b2, n2)
    ensures b1 == b2 && n1 == n2
  {
    var d1, d2 := ToDecimal(n1), ToDecimal(n2);
    ToDecimalIsNumeral(n1);
    ToDecimalIsNumeral(n2);
    var s := Render(b1, n1);
    assert s == Mark(b1) + d1 && s == Mark(b2) + d2;
    // The first character is the mark when there is one, otherwise a digit.
    assert s[0] == if b1 == Exact then d1[0] else Mark(b1)[0];
    assert s[0] == if b2 == Exact then d2[0] else Mark(b2)[0];
    assert d1 == s[|Mark(b1)|..] == d2;
    ToDecimalInjective(n1, n2);
  }

  lemma AllDigitsFromSearch(s: string)
    requires FindFirstNotOf(s, DigitChars).None?
    ensures AllDigits(s)
  {
  }

  lemma SearchFromAllDigits(s: string)
    requires AllDigits(s)
    ensures FindFirstNotOf(s, DigitChars).None?
  {
  }

  /** Every string the validator accepts belongs to the titer grammar. */
  lemma AcceptedIsWellFormed(s: string)
    requires CheckValidTiter(s).Pass?
    ensures WellFormed(s)
  {
    if s != "*" {
      var rest := StripPrefix(s);
      AllDigitsFromSearch(rest);
      assert IsNumeral(rest);
      var n := Value(rest);
      NumeralValuePositive(rest);
      ToDecimalOfValue(rest);
      var b := if s[0] == '<' then Below else if s[0] == '>' then Above else Exact;
      assert s == Render(b, n);
    }
  }

  /** Every string of the titer grammar is accepted by the validator. */
  lemma WellFormedIsAccepted(s: string)
    requires WellFormed(s)
    ensures CheckValidTiter(s).Pass?
  {
    if s != "*" {
      var b: Bound, n: nat :| 1 <= n && s == Render(b, n);
      var d := ToDecimal(n);
      ToDecimalIsNumeral(n);
      SearchFromAllDigits(d);
      assert s == Mark(b) + d;
      assert StripPrefix(s) == d by {
        if b != Exact {
          assert s[0] == Mark(b)[0] && s[1..] == d;
        }
      }
    }
  }

  /** The validator accepts exactly the strings of the titer grammar. */
  lemma CheckAcceptsExactlyWellFormed(s: string)
    ensures CheckValidTiter(s).Pass? <==> WellFormed(s)
  {
    if CheckValidTiter(s).Pass? {
      AcceptedIsWellFormed(s);
    }
    if WellFormed(s) {
      WellFormedIsAccepted(s);
    }
  }

  /**
   * One censoring mark is transparent: behind `<` or `>` a string gets the
   * verdict it would get on its own, except that `*` loses its exemption.
   * Because only one mark is stripped, a second mark is refused.
   */
  lemma CensorMarkTransparent(mark: char, t: string)
    requires IsCensorMark(mark)
    ensures t != "*" && !(|t| > 0 && IsCensorMark(t[0])) ==> CheckValidTiter([mark] + t) == CheckValidTiter(t)
    ensures t == "*" ==> CheckValidTiter([mark] + t) == Fail(InvalidTiter(InvalidMessage("*")))
    ensures |t| > 0 && IsCensorMark(t[0]) ==> CheckValidTiter([mark] + t) == Fail(InvalidTiter(InvalidMessage(t)))
  {
  }

  /** Worked examples of strings the validator accepts. */
  lemma AcceptedExamples()
    ensures CheckValidTiter("*") == Pass
    ensures CheckValidTiter("40") == Pass
    ensures CheckValidTiter("<10") == Pass
    ensures CheckValidTiter(">80") == Pass
  {
  }

  /** Worked examples of refused strings whose message quotes the stripped remainder. */
  lemma RefusedExamples()
    ensures CheckValidTiter("") == Fail(OutOfRange)
    ensures CheckValidTiter("<") == Fail(OutOfRange)
    ensures CheckValidTiter("0") == Fail(InvalidTiter("Invalid titer '0'"))
    ensures CheckValidTiter("<0") == Fail(InvalidTiter("Invalid titer '0'"))
    ensures CheckValidTiter("abc") == Fail(InvalidTiter("Invalid titer 'abc'"))
  {
    assert InvalidMessage("0") == "Invalid titer '0'";
    assert InvalidMessage("abc") == "Invalid titer 'abc'";
    CensorMarkTransparent('<', "0");
    assert FindFirstNotOf("abc", DigitChars) == Some(0) by {
      DigitCharsAreDigits('a');
    }
  }

  /** Worked examples of a doubled censoring mark and of misplaced `*`. */
  lemma MisplacedMarkExamples()
    ensures CheckValidTiter("<<10") == Fail(InvalidTiter("Invalid titer '<10'"))
    ensures CheckValidTiter("<>10") == Fail(InvalidTiter("Invalid titer '>10'"))
    ensures CheckValidTiter("<*") == Fail(InvalidTiter("Invalid titer '*'"))
    ensures CheckValidTiter("**") == Fail(InvalidTiter("Invalid titer '**'"))
    ensures CheckValidTiter("*1") == Fail(InvalidTiter("Invalid titer '*1'"))
  {
    assert InvalidMessage("<10") == "Invalid titer '<10'";
    assert InvalidMessage(">10") == "Invalid titer '>10'";
    assert InvalidMessage("*") == "Invalid titer '*'";
    assert InvalidMessage("**") == "Invalid titer '**'";
    assert InvalidMessage("*1") == "Invalid titer '*1'";
    CensorMarkTransparent('<', "<10");
    CensorMarkTransparent('<', ">10");
    CensorMarkTransparent('<', "*");
  }
}
