/** Character classes and the string operations the controllers use. */
module Text {
  import opened Wrappers

  predicate IsLower(c: char) { 'a' <= c <= 'z' }
  predicate IsUpper(c: char) { 'A' <= c <= 'Z' }
  predicate IsDigit(c: char) { '0' <= c <= '9' }
  predicate IsLetter(c: char) { IsLower(c) || IsUpper(c) }
  predicate IsAlnum(c: char) { IsLetter(c) || IsDigit(c) }

  /** `toLowerCase` on one character; only ASCII letters are mapped. */
  function LowerChar(c: char): char {
    if IsUpper(c) then (c as int + 32) as char else c
  }

  /** `toUpperCase` on one character; only ASCII letters are mapped. */
  function UpperChar(c: char): char {
    if IsLower(c) then (c as int - 32) as char else c
  }

  function Lower(s: string): (r: string)
    ensures |r| == |s|
    ensures forall i :: 0 <= i < |s| ==> r[i] == LowerChar(s[i])
  {
    seq(|s|, i requires 0 <= i < |s| => LowerChar(s[i]))
  }

  function Upper(s: string): (r: string)
    ensures |r| == |s|
    ensures forall i :: 0 <= i < |s| ==> r[i] == UpperChar(s[i])
  {
    seq(|s|, i requires 0 <= i < |s| => UpperChar(s[i]))
  }

  /** No two `ch` in a row. */
  predicate NoRun(s: string, ch: char) {
    forall i :: 0 <= i < |s| - 1 ==> !(s[i] == ch && s[i + 1] == ch)
  }

  /** Every run of `ch` becomes a single `ch`. */
  function Squeeze(s: string, ch: char): (r: string)
    ensures |s| > 0 ==> |r| > 0 && r[0] == s[0]
  {
    if |s| <= 1 then s
    else if s[0] == ch && s[1] == ch then Squeeze(s[1..], ch)
    else [s[0]] + Squeeze(s[1..], ch)
  }

  /** No run of `ch` is left. */
  lemma {:induction false} SqueezeNoRun(s: string, ch: char)
    ensures NoRun(Squeeze(s, ch), ch)
  {
    if |s| > 1 {
      SqueezeNoRun(s[1..], ch);
      if !(s[0] == ch && s[1] == ch) {
        var rest := Squeeze(s[1..], ch);
        assert rest[0] == s[1];
        var r := [s[0]] + rest;
        forall i | 0 <= i < |r| - 1 ensures !(r[i] == ch && r[i + 1] == ch) {
          if i > 0 {
            assert r[i] == rest[i - 1] && r[i + 1] == rest[i];
          }
        }
      }
    }
  }

  /** A text without runs of `ch` is left as it is. */
  lemma {:induction false} SqueezeFixes(s: string, ch: char)
    ensures NoRun(s, ch) ==> Squeeze(s, ch) == s
  {
    if |s| > 1 && NoRun(s, ch) {
      assert NoRun(s[1..], ch) by {
        forall i | 0 <= i < |s| - 2 ensures !(s[1..][i] == ch && s[1..][i + 1] == ch) {
          assert s[1..][i] == s[i + 1] && s[1..][i + 1] == s[i + 2];
        }
      }
      SqueezeFixes(s[1..], ch);
      assert !(s[0] == ch && s[1] == ch);
      assert s == [s[0]] + s[1..];
    }
  }

  /** `Squeeze` introduces no character that was not there. */
  lemma {:induction false} SqueezeChars(s: string, ch: char)
    ensures forall i :: 0 <= i < |Squeeze(s, ch)| ==> Squeeze(s, ch)[i] in s
  {
    if |s| > 1 {
      SqueezeChars(s[1..], ch);
      assert forall x :: x in s[1..] ==> x in s;
    }
  }

  /** A first character that does not start a run of `ch` is kept by `Squeeze`. */
  lemma SqueezeCons(x: char, rest: string, ch: char)
    requires !(x == ch && |rest| > 0 && rest[0] == ch)
    ensures Squeeze([x] + rest, ch) == [x] + Squeeze(rest, ch)
  {
    assert ([x] + rest)[1..] == rest;
  }

  /** A prefix without runs of `ch` that does not end in `ch` passes through `Squeeze` untouched. */
  lemma {:induction false} SqueezeAppend(a: string, b: string, ch: char)
    requires NoRun(a, ch) && (|a| == 0 || a[|a| - 1] != ch)
    ensures Squeeze(a + b, ch) == a + Squeeze(b, ch)
    decreases |a|
  {
    if |a| == 0 {
      assert a + b == b;
    } else {
      var tail := a[1..];
      assert NoRun(tail, ch) by {
        forall i | 0 <= i < |tail| - 1 ensures !(tail[i] == ch && tail[i + 1] == ch) {
          assert tail[i] == a[i + 1] && tail[i + 1] == a[i + 2];
        }
      }
      assert |a| > 1 ==> tail[|tail| - 1] == a[|a| - 1];
      assert !(a[0] == ch && |tail + b| > 0 && (tail + b)[0] == ch) by {
        if a[0] == ch {
          assert |a| > 1 && a[1] != ch && (tail + b)[0] == a[1];
        }
      }
      SqueezeCons(a[0], tail + b, ch);
      SqueezeAppend(tail, b, ch);
      assert a + b == [a[0]] + (tail + b);
      assert a + Squeeze(b, ch) == [a[0]] + (tail + Squeeze(b, ch));
    }
  }

  /** `pat` occurs in `s` starting at index `i`. */
  predicate MatchesAt(s: string, pat: string, i: nat) {
    i + |pat| <= |s| && s[i..i + |pat|] == pat
  }

  /** The first index at or after `i` where `pat` occurs in `s` (`indexOf` from `i`). */
  function IndexOfFrom(s: string, pat: string, i: nat): (r: Option<nat>)
    requires i <= |s|
    ensures r.Some? ==> i <= r.value && MatchesAt(s, pat, r.value)
    ensures r.Some? ==> forall j :: i <= j < r.value ==> !MatchesAt(s, pat, j)
    ensures r.None? ==> forall j :: i <= j ==> !MatchesAt(s, pat, j)
    decreases |s| - i
  {
    if MatchesAt(s, pat, i) then Some(i)
    else if i == |s| then None
    else IndexOfFrom(s, pat, i + 1)
  }

  /** `s.indexOf(pat)`: the first occurrence, or None for -1. */
  function IndexOf(s: string, pat: string): Option<nat> {
    IndexOfFrom(s, pat, 0)
  }

  /** `s.includes(pat)`. */
  predicate Contains(s: string, pat: string) {
    IndexOf(s, pat).Some?
  }

  /** `includes` holds exactly when some index matches. */
  lemma ContainsIff(s: string, pat: string)
    ensures Contains(s, pat) <==> exists j: nat :: MatchesAt(s, pat, j)
  {
  }

  /** A string in which some character of the pattern never appears does not contain it. */
  lemma NotContainsWithout(s: string, pat: string, k: nat)
    requires k < |pat| && pat[k] !in s
    ensures !Contains(s, pat)
  {
    forall j: nat ensures !MatchesAt(s, pat, j) {
      if j + |pat| <= |s| {
        assert s[j..j + |pat|][k] == s[j + k];
      }
    }
    ContainsIff(s, pat);
  }

  /** `s.replace(pat, rep)` with a string pattern: only the first occurrence is replaced. */
  function ReplaceFirst(s: string, pat: string, rep: string): (r: string)
    ensures IndexOf(s, pat).None? ==> r == s
    ensures IndexOf(s, pat).Some? ==>
      var i := IndexOf(s, pat).value;
      i + |pat| <= |s| && |r| == |s| - |pat| + |rep| &&
      r[..i] == s[..i] && r[i..i + |rep|] == rep && r[i + |rep|..] == s[i + |pat|..]
  {
    match IndexOf(s, pat)
    case None => s
    case Some(i) => s[..i] + rep + s[i + |pat|..]
  }

  /** The decimal digits of `n`, most significant first, as a template literal renders it. */
  function Digits(n: nat): (r: string)
    ensures |r| > 0 && forall i :: 0 <= i < |r| ==> IsDigit(r[i])
    decreases n
  {
    var d := ['0' + (n % 10) as char];
    if n < 10 then d else Digits(n / 10) + d
  }

  /** An integer rendered in decimal, with a leading '-' when negative. */
  function Show(n: int): (r: string)
    ensures |r| > 0
    ensures n >= 0 ==> r == Digits(n)
    ensures n < 0 ==> r == "-" + Digits(-n)
  {
    if n >= 0 then Digits(n) else "-" + Digits(-n)
  }
}
