/** The two pieces of java.lang.String behaviour the ledger relies on:
    `compareTo` (the lexicographic order used to pick the lock order) and
    `trim` (applied to an account id before it is used as a map key by a debit).
    Dafny's own `<` on sequences means "proper prefix", so the order is written out here. */
module JavaStrings {

  /** String.compareTo: the difference of the first pair of characters that
      differ, or the difference of the lengths when one string is a prefix of the other. */
  function CompareTo(a: string, b: string): int
    decreases |a|
  {
    if |a| == 0 || |b| == 0 then |a| - |b|
    else if a[0] != b[0] then (a[0] as int) - (b[0] as int)
    else CompareTo(a[1..], b[1..])
  }

  /** `a.compareTo(b) < 0` */
  predicate Less(a: string, b: string) {
    CompareTo(a, b) < 0
  }

  /** Swapping the arguments negates the result. */
  lemma {:induction false} CompareToAntisymmetric(a: string, b: string)
    ensures CompareTo(a, b) == -CompareTo(b, a)
    decreases |a|
  {
    if |a| != 0 && |b| != 0 && a[0] == b[0] {
      CompareToAntisymmetric(a[1..], b[1..]);
    }
  }

  /** compareTo is zero exactly on equal strings. */
  lemma {:induction false} CompareToZeroIff(a: string, b: string)
    ensures CompareTo(a, b) == 0 <==> a == b
    decreases |a|
  {
    if |a| != 0 && |b| != 0 && a[0] == b[0] {
      CompareToZeroIff(a[1..], b[1..]);
      assert a == [a[0]] + a[1..] && b == [b[0]] + b[1..];
    }
  }

  /** The sign of compareTo is transitive, so `Less` is a strict total order. */
  lemma {:induction false} LessTransitive(a: string, b: string, c: string)
    requires Less(a, b) && Less(b, c)
    ensures Less(a, c)
    decreases |a|
  {
    if |a| != 0 && |b| != 0 && |c| != 0 && a[0] == b[0] && b[0] == c[0] {
      LessTransitive(a[1..], b[1..], c[1..]);
    }
  }

  /** Two different strings are always ordered one way or the other. */
  lemma LessTotal(a: string, b: string)
    requires a != b
    ensures Less(a, b) != Less(b, a)
  {
    CompareToAntisymmetric(a, b);
    CompareToZeroIff(a, b);
  }

  /** Characters that String.trim removes: every code up to and including the space. */
  predicate IsTrimChar(c: char) {
    c <= ' '
  }

  /** No removable character at either end. */
  predicate IsTrimmed(s: string) {
    s == [] || (!IsTrimChar(s[0]) && !IsTrimChar(s[|s| - 1]))
  }

  function TrimStart(s: string): (r: string)
    ensures r == [] || !IsTrimChar(r[0])
    ensures |r| <= |s|
    ensures |s| > 0 && !IsTrimChar(s[0]) ==> r == s
  {
    if |s| > 0 && IsTrimChar(s[0]) then TrimStart(s[1..]) else s
  }

  function TrimEnd(s: string): (r: string)
    ensures r == [] || !IsTrimChar(r[|r| - 1])
    ensures |r| <= |s| && (|r| > 0 ==> r[0] == s[0])
    ensures |s| > 0 && !IsTrimChar(s[|s| - 1]) ==> r == s
  {
    if |s| > 0 && IsTrimChar(s[|s| - 1]) then TrimEnd(s[..|s| - 1]) else s
  }

  /** String.trim: removes the removable characters at both ends, leaves a
      trimmed string, and leaves an already trimmed string as it is. */
  function Trim(s: string): (r: string)
    ensures IsTrimmed(r)
    ensures IsTrimmed(s) ==> r == s
    ensures |r| <= |s|
  {
    TrimEnd(TrimStart(s))
  }

  /** Trimming the start leaves a suffix, and what it drops is blanks. */
  lemma {:induction false} TrimStartIsSuffix(s: string)
    ensures TrimStart(s) == s[|s| - |TrimStart(s)|..]
    ensures forall k | 0 <= k < |s| - |TrimStart(s)| :: IsTrimChar(s[k])
  {
    if |s| > 0 && IsTrimChar(s[0]) {
      TrimStartIsSuffix(s[1..]);
      forall k | 1 <= k < |s| - |TrimStart(s)|
        ensures IsTrimChar(s[k])
      {
        assert s[k] == s[1..][k - 1];
      }
    }
  }

  /** Trimming the end leaves a prefix, and what it drops is blanks. */
  lemma {:induction false} TrimEndIsPrefix(s: string)
    ensures TrimEnd(s) == s[..|TrimEnd(s)|]
    ensures forall k | |TrimEnd(s)| <= k < |s| :: IsTrimChar(s[k])
  {
    if |s| > 0 && IsTrimChar(s[|s| - 1]) {
      TrimEndIsPrefix(s[..|s| - 1]);
      forall k | |TrimEnd(s)| <= k < |s| - 1
        ensures IsTrimChar(s[k])
      {
        assert s[k] == s[..|s| - 1][k];
      }
    }
  }

  /** What trim returns is a contiguous piece of its argument, and everything
      before and after that piece is blanks. With IsTrimmed(Trim(s)) this fixes
      the result completely. */
  lemma TrimIsInfix(s: string)
    ensures exists i, j ::
      && 0 <= i <= j <= |s|
      && Trim(s) == s[i..j]
      && (forall k | 0 <= k < i :: IsTrimChar(s[k]))
      && (forall k | j <= k < |s| :: IsTrimChar(s[k]))
  {
    var t := TrimStart(s);
    TrimStartIsSuffix(s);
    TrimEndIsPrefix(t);
    var i := |s| - |t|;
    var j := i + |Trim(s)|;
    assert Trim(s) == s[i..j];
    forall k | j <= k < |s|
      ensures IsTrimChar(s[k])
    {
      assert s[k] == t[k - i];
    }
  }
}
