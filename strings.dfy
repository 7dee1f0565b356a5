/** The JavaScript string operations the site relies on, on `seq<char>`. */
module Strings {
  import opened Wrappers

  /** `s.startsWith(prefix)` */
  predicate StartsWith(s: string, prefix: string) {
    |prefix| <= |s| && s[..|prefix|] == prefix
  }

  /** `s.endsWith(suffix)` */
  predicate EndsWith(s: string, suffix: string) {
    |suffix| <= |s| && s[|s| - |suffix|..] == suffix
  }

  /** Truthiness of a string that may be `null` or `undefined`:
      only a present, non-empty string is truthy. */
  predicate Truthy(s: Option<string>) {
    s.Some? && s.value != ""
  }

  /** `a` and `b` agree on their first `k` characters, and position `k`
      decides between them: `a` ends there while `b` goes on, or `a` has
      the smaller character there. */
  ghost predicate DecidedAt(a: string, b: string, k: nat) {
    && k <= |a| && k <= |b| && a[..k] == b[..k]
    && (if k == |a| then k < |b| else k < |b| && a[k] < b[k])
  }

  /** JavaScript's `a < b` on two strings: lexicographic order, character
      by character, a proper prefix coming first. */
  function Less(a: string, b: string): (less: bool)
    ensures less <==> exists k: nat :: DecidedAt(a, b, k)
  {
    if |a| == 0 then
      assert |b| > 0 ==> DecidedAt(a, b, 0);
      |b| > 0
    else if |b| == 0 then
      false
    else if a[0] != b[0] then
      DecidedByFirst(a, b);
      a[0] < b[0]
    else
      DecidedInTails(a, b);
      Less(a[1..], b[1..])
  }

  lemma DecidedByFirst(a: string, b: string)
    requires |a| > 0 && |b| > 0 && a[0] != b[0]
    ensures (exists k: nat :: DecidedAt(a, b, k)) <==> a[0] < b[0]
  {
    if a[0] < b[0] {
      assert DecidedAt(a, b, 0);
    }
  }

  lemma DecidedInTails(a: string, b: string)
    requires |a| > 0 && |b| > 0 && a[0] == b[0]
    ensures (exists k: nat :: DecidedAt(a, b, k)) <==> (exists k: nat :: DecidedAt(a[1..], b[1..], k))
  {
    if k: nat :| DecidedAt(a, b, k) {
      assert k > 0;
      assert a[1..][..k - 1] == a[..k][1..] && b[1..][..k - 1] == b[..k][1..];
      assert DecidedAt(a[1..], b[1..], k - 1);
    }
    if k: nat :| DecidedAt(a[1..], b[1..], k) {
      assert a[..k + 1] == [a[0]] + a[1..][..k] && b[..k + 1] == [b[0]] + b[1..][..k];
      assert DecidedAt(a, b, k + 1);
    }
  }

  lemma {:induction false} LessIrreflexive(a: string)
    ensures !Less(a, a)
  {
    if |a| > 0 {
      LessIrreflexive(a[1..]);
    }
  }

  lemma {:induction false} LessAsymmetric(a: string, b: string)
    ensures Less(a, b) ==> !Less(b, a)
  {
    if |a| > 0 && |b| > 0 && a[0] == b[0] {
      LessAsymmetric(a[1..], b[1..]);
    }
  }

  lemma {:induction false} LessTransitive(a: string, b: string, c: string)
    ensures Less(a, b) && Less(b, c) ==> Less(a, c)
  {
    if |a| > 0 && |b| > 0 && |c| > 0 && a[0] == b[0] && b[0] == c[0] {
      LessTransitive(a[1..], b[1..], c[1..]);
    }
  }

  /** Two different strings are always ordered one way or the other. */
  lemma {:induction false} LessConnected(a: string, b: string)
    ensures a == b || Less(a, b) || Less(b, a)
  {
    if |a| > 0 && |b| > 0 && a[0] == b[0] {
      LessConnected(a[1..], b[1..]);
      if a[1..] == b[1..] {
        assert a == [a[0]] + a[1..] && b == [b[0]] + b[1..];
      }
    }
  }

  /** "Not less than" is transitive: `a >= b` and `b >= c` give `a >= c`. */
  lemma NotLessTransitive(a: string, b: string, c: string)
    requires !Less(a, b) && !Less(b, c)
    ensures !Less(a, c)
  {
    LessConnected(a, b);
    if Less(a, c) {
      if a != b {
        LessTransitive(b, a, c);
      }
    }
  }
}
