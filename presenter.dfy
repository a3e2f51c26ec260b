/**
 * The scalar presenter used when job XML is dumped as YAML: a text value with
 * more than one line has every carriage return removed and requests a literal
 * block (`|`); any other text is handed on as is, with no style requested.
 * The emitter decides whether a requested block style is allowed.
 */
module Presenter {

  /** The YAML scalar styles the presenter asks for: none (the emitter chooses), or a literal block. */
  datatype Style = Default | Literal

  datatype Scalar = Scalar(text: string, style: Style)

  /** The line boundaries of Python 2.7's `unicode.splitlines`. */
  predicate IsLineBreak(c: char)
  {
    c == '\n' || c == '\r' || c == '\U{0B}' || c == '\U{0C}' || c == '\U{1C}' || c == '\U{1D}'
    || c == '\U{1E}' || c == '\U{85}' || c == '\U{2028}' || c == '\U{2029}'
  }

  /** The index of the first line boundary in `s`, or `|s|` when there is none. */
  function FirstBreak(s: string): (e: nat)
    ensures e <= |s|
    ensures e < |s| ==> IsLineBreak(s[e])
    ensures forall j :: 0 <= j < e ==> !IsLineBreak(s[j])
  {
    if s == [] || IsLineBreak(s[0]) then 0 else 1 + FirstBreak(s[1..])
  }

  /** Where the text after the first line ends; `\r\n` is one boundary. */
  function AfterBreak(s: string): (k: nat)
    ensures FirstBreak(s) <= k <= |s|
  {
    var e := FirstBreak(s);
    if e == |s| then |s|
    else if s[e] == '\r' && e + 1 < |s| && s[e + 1] == '\n' then e + 2
    else e + 1
  }

  /** `unicode.splitlines()` without line ends. */
  function SplitLines(s: string): seq<string>
    decreases |s|
  {
    if s == [] then []
    else [s[..FirstBreak(s)]] + SplitLines(s[AfterBreak(s)..])
  }

  /**
   * Reference reading of "more than one line": some line boundary is followed
   * by more text, not counting a `\r\n` that ends the string.
   */
  predicate IsMultiline(s: string)
  {
    exists i :: 0 <= i < |s| - 1 && IsLineBreak(s[i])
                && !(i + 2 == |s| && s[i] == '\r' && s[i + 1] == '\n')
  }

  /** `len(data.splitlines()) > 1` holds exactly for multiline text. */
  lemma MultilineIff(s: string)
    ensures |SplitLines(s)| > 1 <==> IsMultiline(s)
  {
    if s != [] {
      var e, k := FirstBreak(s), AfterBreak(s);
      assert |SplitLines(s)| == 1 + |SplitLines(s[k..])|;
      assert |SplitLines(s)| > 1 <==> k < |s|;
      if k < |s| {
        assert 0 <= e < |s| - 1 && IsLineBreak(s[e]);
      }
      if IsMultiline(s) {
        var i :| 0 <= i < |s| - 1 && IsLineBreak(s[i])
                 && !(i + 2 == |s| && s[i] == '\r' && s[i + 1] == '\n');
        assert e <= i;
      }
    }
  }

  /** The text with every carriage return removed. */
  function RemoveCR(s: string): (r: string)
    ensures '\r' !in r
    ensures |r| <= |s|
  {
    if s == [] then []
    else (if s[0] == '\r' then [] else [s[0]]) + RemoveCR(s[1..])
  }

  /** Removing carriage returns works piecewise and leaves text without them unchanged. */
  lemma {:induction false} RemoveCRAppend(a: string, b: string)
    ensures RemoveCR(a + b) == RemoveCR(a) + RemoveCR(b)
  {
    if a != [] {
      assert (a + b)[1..] == a[1..] + b;
      RemoveCRAppend(a[1..], b);
    } else {
      assert a + b == b;
    }
  }

  lemma {:induction false} RemoveCRNoop(s: string)
    requires '\r' !in s
    ensures RemoveCR(s) == s
  {
    if s != [] {
      assert s[0] in s;
      assert forall c :: c in s[1..] ==> c in s;
      RemoveCRNoop(s[1..]);
    }
  }

  /** Removing carriage returns keeps every other character, with its count. */
  lemma {:induction false} RemoveCRCounts(s: string, c: char)
    requires c != '\r'
    ensures multiset(RemoveCR(s))[c] == multiset(s)[c]
  {
    if s != [] {
      RemoveCRCounts(s[1..], c);
      assert s == [s[0]] + s[1..];
    }
  }

  /** The presenter: multiline text without carriage returns, with a literal block requested. */
  function Present(s: string): Scalar
  {
    if |SplitLines(s)| > 1 then Scalar(RemoveCR(s), Literal) else Scalar(s, Default)
  }

  /**
   * Multiline text loses its carriage returns and requests a literal block;
   * all other text is passed through unchanged with no style requested.
   */
  lemma PresentSpec(s: string)
    ensures Present(s).style == Literal <==> IsMultiline(s)
    ensures Present(s).style == Literal ==> '\r' !in Present(s).text && Present(s).text == RemoveCR(s)
    ensures Present(s).style == Default ==> Present(s).text == s
  {
    MultilineIff(s);
  }

  /** Presenting the presented text again changes nothing. */
  lemma PresentIdempotent(s: string)
    ensures Present(Present(s).text).text == Present(s).text
  {
    var t := Present(s).text;
    if Present(s).style == Literal {
      RemoveCRNoop(t);
    }
  }

  /** One line followed by a lone newline (or `\r\n`) is not multiline. */
  lemma TrailingNewlineKeepsDefault(line: string)
    requires forall j :: 0 <= j < |line| ==> !IsLineBreak(line[j])
    ensures Present(line + "\n") == Scalar(line + "\n", Default)
    ensures Present(line + "\r\n") == Scalar(line + "\r\n", Default)
  {
    MultilineIff(line + "\n");
    MultilineIff(line + "\r\n");
  }

  /**
   * Two lines separated by a lone carriage return are multiline, and removing
   * the carriage return joins them: the block holds a single line.
   */
  lemma LoneCarriageReturnJoinsLines()
    ensures Present("a\rb") == Scalar("ab", Literal)
  {
    MultilineIff("a\rb");
    assert IsLineBreak("a\rb"[1]);
  }
}
