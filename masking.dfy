/**
 * The `config` command prints the credential store with every password
 * hidden: each `password: ` and the rest of its line become
 * `password: *****`.
 */
module Masking {
  import opened Text

  const Key: string := "password: "
  const Masked: string := "password: *****"

  /** The index of the first newline in `s`, or `|s|`: where `.*` stops. */
  function LineEnd(s: string): nat
  {
    Find(s, '\n')
  }

  /** The line end is the first newline. */
  lemma LineEndAt(s: string, n: nat)
    requires n <= |s|
    requires forall j :: 0 <= j < n ==> s[j] != '\n'
    requires n == |s| || s[n] == '\n'
    ensures LineEnd(s) == n
  {
  }

  /** The facts about the two constants the proofs below rely on. */
  lemma KeyFacts()
    ensures |Key| == 10 && Key[0] == 'p' && Key[1..] == "assword: "
    ensures '\n' !in Key && '\n' !in Masked && 'p' !in "assword: "
    ensures |Masked| == 15 && Masked[..|Key|] == Key
  {
  }

  /** The substitution, scanning left to right; a match resumes the scan at its line end. */
  function Mask(s: string): string
    decreases |s|
  {
    if s == [] then []
    else if StartsWith(s, Key) then
      KeyFacts();
      assert s[0] == Key[0];
      Masked + Mask(s[LineEnd(s)..])
    else [s[0]] + Mask(s[1..])
  }

  /** The first character of masked text. */
  lemma MaskHead(t: string)
    requires t != []
    ensures Mask(t) != []
    ensures Mask(t)[0] == if StartsWith(t, Key) then 'p' else t[0]
  {
    KeyFacts();
  }

  /** Some `password: ` occurs in `s`. */
  ghost predicate ContainsKey(s: string)
  {
    exists i :: 0 <= i < |s| && StartsWith(s[i..], Key)
  }

  /** Text without `password: ` is printed unchanged. */
  lemma {:induction false} MaskWithoutKey(s: string)
    requires !ContainsKey(s)
    ensures Mask(s) == s
    decreases |s|
  {
    if s != [] {
      assert s[0..] == s;
      assert !ContainsKey(s[1..]) by {
        forall i | 0 <= i < |s[1..]| ensures !StartsWith(s[1..][i..], Key) {
          assert s[1..][i..] == s[i + 1..];
        }
      }
      MaskWithoutKey(s[1..]);
    }
  }

  /** A line holding `password: <secret>` is printed with the secret replaced by stars. */
  lemma MaskHidesSecret(secret: string, rest: string)
    requires '\n' !in secret
    requires rest == [] || rest[0] == '\n'
    ensures Mask(Key + secret + rest) == Masked + Mask(rest)
  {
    KeyFacts();
    var s := Key + secret + rest;
    assert s[..|Key|] == Key;
    var n := |Key| + |secret|;
    assert forall j :: 0 <= j < |Key| ==> s[j] == Key[j];
    assert forall j :: |Key| <= j < n ==> s[j] == secret[j - |Key|];
    assert n < |s| ==> s[n] == rest[0];
    LineEndAt(s, n);
    assert s[n..] == rest;
  }

  /**
   * A `password: <secret>` line anywhere in the text, after text where no
   * earlier `password: ` begins, hides the secret and leaves that text alone.
   */
  lemma MaskAfterPrefix(pre: string, secret: string, rest: string)
    requires '\n' !in secret
    requires rest == [] || rest[0] == '\n'
    requires forall i :: 0 <= i < |pre| ==> !StartsWith((pre + (Key + secret + rest))[i..], Key)
    ensures Mask(pre + (Key + secret + rest)) == pre + (Masked + Mask(rest))
  {
    MaskHidesSecret(secret, rest);
    MaskKeepsPrefix(pre, Key + secret + rest);
  }

  /** Text in which no match begins is copied, and masking goes on after it. */
  lemma {:induction false} MaskKeepsPrefix(pre: string, w: string)
    requires forall i :: 0 <= i < |pre| ==> !StartsWith((pre + w)[i..], Key)
    ensures Mask(pre + w) == pre + Mask(w)
    decreases |pre|
  {
    if pre == [] {
      assert pre + w == w;
      assert pre + Mask(w) == Mask(w);
    } else {
      var s := pre + w;
      var t := pre[1..] + w;
      assert s == [pre[0]] + t;
      assert s[0..] == s;
      MaskCopies(pre[0], t);
      NoMatchShifts(s, |pre|);
      assert s[1..] == t;
      MaskKeepsPrefix(pre[1..], w);
      assert pre == [pre[0]] + pre[1..];
    }
  }

  /** No match begins in the first `n` places of `s`, so none begins in the first `n - 1` of its tail. */
  lemma NoMatchShifts(s: string, n: nat)
    requires 0 < n <= |s|
    requires forall i :: 0 <= i < n ==> !StartsWith(s[i..], Key)
    ensures forall i :: 0 <= i < n - 1 ==> !StartsWith(s[1..][i..], Key)
  {
    forall i | 0 <= i < n - 1
      ensures !StartsWith(s[1..][i..], Key)
    {
      assert s[1..][i..] == s[i + 1..];
    }
  }

  /** A character that begins no match is copied as it is. */
  lemma MaskCopies(c: char, t: string)
    requires !StartsWith([c] + t, Key)
    ensures Mask([c] + t) == [c] + Mask(t)
  {
    assert ([c] + t)[1..] == t;
  }

  /** Masking keeps the number of lines. */
  lemma {:induction false} MaskKeepsLines(s: string)
    ensures Count(Mask(s), '\n') == Count(s, '\n')
    decreases |s|
  {
    if s != [] {
      if StartsWith(s, Key) {
        KeyFacts();
        assert s[0] == Key[0];
        var e := LineEnd(s);
        MaskKeepsLines(s[e..]);
        MatchKeepsLines(s);
      } else {
        MaskKeepsLines(s[1..]);
        CountAppend([s[0]], Mask(s[1..]), '\n');
        assert s == [s[0]] + s[1..];
        CountAppend([s[0]], s[1..], '\n');
      }
    }
  }

  /** One replacement removes no newline: the replaced text ends at the line end. */
  lemma MatchKeepsLines(s: string)
    requires StartsWith(s, Key)
    ensures Count(Mask(s), '\n') == Count(Mask(s[LineEnd(s)..]), '\n')
    ensures Count(s, '\n') == Count(s[LineEnd(s)..], '\n')
  {
    MaskAtKey(s);
    StarsHaveNoNewline(Mask(s[LineEnd(s)..]));
    LineHasNoNewline(s, LineEnd(s));
  }

  lemma StarsHaveNoNewline(m: string)
    ensures Count(Masked + m, '\n') == Count(m, '\n')
  {
    KeyFacts();
    CountAppend(Masked, m, '\n');
    CountAbsent(Masked, '\n');
  }

  lemma LineHasNoNewline(s: string, e: nat)
    requires e <= |s|
    requires forall j :: 0 <= j < e ==> s[j] != '\n'
    ensures Count(s, '\n') == Count(s[e..], '\n')
  {
    assert s == s[..e] + s[e..];
    CountAppend(s[..e], s[e..], '\n');
    CountAbsent(s[..e], '\n');
  }

  lemma MaskAtKey(s: string)
    requires StartsWith(s, Key)
    ensures Mask(s) == Masked + Mask(s[LineEnd(s)..])
  {
    KeyFacts();
    assert s != [];
  }

  /** If masked text starts with a string that has no `p`, the original starts with it too. */
  lemma {:induction false} MaskPrefixWithoutP(t: string, u: string)
    requires 'p' !in u
    ensures StartsWith(Mask(t), u) ==> StartsWith(t, u)
    decreases |u|
  {
    if u != [] && StartsWith(Mask(t), u) {
      if t != [] {
        MaskHead(t);
        assert u[0] in u;
        assert !StartsWith(t, Key);
        var tail := Mask(t[1..]);
        assert Mask(t) == [t[0]] + tail;
        assert StartsWith(tail, u[1..]);
        assert forall x :: x in u[1..] ==> x in u;
        MaskPrefixWithoutP(t[1..], u[1..]);
        assert t[..|u|] == [t[0]] + t[1..][..|u| - 1];
      }
    }
  }

  /** Masking the stars of a masked line leaves them, and the rest of the text, alone. */
  lemma MaskStars(m: string)
    requires Mask(m) == m
    requires m == [] || m[0] == '\n'
    ensures Mask(Masked + m) == Masked + m
  {
    var t := Masked + m;
    StarsLine(m);
    MaskAtKey(t);
    assert t[|Masked|..] == m;
  }

  /** A masked line begins a match that runs exactly over the stars. */
  lemma StarsLine(m: string)
    requires m == [] || m[0] == '\n'
    ensures StartsWith(Masked + m, Key)
    ensures LineEnd(Masked + m) == |Masked|
  {
    KeyFacts();
    var t := Masked + m;
    assert t[..|Key|] == Key;
    assert forall j :: 0 <= j < |Masked| ==> t[j] == Masked[j];
    assert |Masked| < |t| ==> t[|Masked|] == m[0];
    LineEndAt(t, |Masked|);
  }

  /** What follows a character that does not begin a match cannot begin one either after masking. */
  lemma NoKeyAfterMaskingTail(s: string)
    requires s != [] && !StartsWith(s, Key)
    ensures !StartsWith([s[0]] + Mask(s[1..]), Key)
  {
    KeyFacts();
    var m := Mask(s[1..]);
    var t := [s[0]] + m;
    MaskPrefixWithoutP(s[1..], "assword: ");
    assert t[1..] == m;
    assert s[0] == 'p' && StartsWith(s[1..], "assword: ") ==> StartsWith(s, Key) by {
      if |s| >= 10 {
        assert s[..10] == [s[0]] + s[1..][..9];
      }
    }
  }

  /** Masked text is masked already: printing it through the mask again changes nothing. */
  lemma {:induction false} MaskIdempotent(s: string)
    ensures Mask(Mask(s)) == Mask(s)
    decreases |s|
  {
    if s != [] {
      KeyFacts();
      if StartsWith(s, Key) {
        var e := LineEnd(s);
        assert s[0] == Key[0];
        var rest := s[e..];
        MaskIdempotent(rest);
        if rest != [] {
          MaskHead(rest);
          assert rest[0] == '\n';
        }
        MaskStars(Mask(rest));
      } else {
        var m := Mask(s[1..]);
        MaskIdempotent(s[1..]);
        NoKeyAfterMaskingTail(s);
        assert ([s[0]] + m)[1..] == m;
      }
    }
  }
}
