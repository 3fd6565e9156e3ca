/** Shared vocabulary: optional values, results, Python truthiness of
    optional strings, and the string operations the services rely on. */
module Common {

  datatype Option<+T> = None | Some(value: T) {
    function GetOr(default: T): T {
      match this
      case Some(v) => v
      case None => default
    }
  }

  datatype Result<+T, +E> = Ok(value: T) | Err(error: E)

  /** A byte as the services receive it from the wire. */
  newtype byte = b: int | 0 <= b < 256

  /** Python truthiness of a value that is either absent (None) or a string:
      both None and "" are false. */
  predicate Truthy(s: Option<string>) {
    s.Some? && s.value != ""
  }

  /** No element occurs twice. */
  predicate Distinct<T(==)>(s: seq<T>) {
    forall i, j :: 0 <= i < j < |s| ==> s[i] != s[j]
  }

  /** The process environment. */
  type Environment = map<string, string>

  /** `os.getenv(key)`. */
  function GetEnv(env: Environment, key: string): Option<string> {
    if key in env then Some(env[key]) else None
  }

  predicate StartsWith(s: string, prefix: string) {
    |prefix| <= |s| && s[..|prefix|] == prefix
  }

  predicate EndsWith(s: string, suffix: string) {
    |suffix| <= |s| && s[|s| - |suffix|..] == suffix
  }

  function LowerChar(c: char): (r: char)
    ensures !('A' <= r <= 'Z')
    ensures !('A' <= c <= 'Z') ==> r == c
  {
    if 'A' <= c <= 'Z' then (c as int + 32) as char else c
  }

  /** `str.lower()` restricted to ASCII letters. */
  function Lower(s: string): (r: string)
    ensures |r| == |s|
    ensures forall i :: 0 <= i < |s| ==> r[i] == LowerChar(s[i])
  {
    if s == [] then [] else [LowerChar(s[0])] + Lower(s[1..])
  }

  /** Lower-casing twice is lower-casing once: a key that is already
      lower-cased is its own lookup key. */
  lemma LowerIdempotent(s: string)
    ensures Lower(Lower(s)) == Lower(s)
  {
  }

  /** Python's `a < b` on `str`: lexicographic order of code points, a proper
      prefix coming first. (Dafny's own `<` on sequences is "proper prefix".) */
  predicate StrLess(a: string, b: string)
    decreases |a|
    ensures |a| < |b| && a == b[..|a|] ==> StrLess(a, b)
    ensures StrLess(a, b) ==> a != b
  {
    if |a| == 0 then |b| > 0
    else if |b| == 0 then false
    else if a[0] < b[0] then true
    else if a[0] == b[0] then StrLess(a[1..], b[1..])
    else false
  }

  lemma {:induction false} StrLessIrreflexive(a: string)
    ensures !StrLess(a, a)
    decreases |a|
  {
    if |a| > 0 {
      StrLessIrreflexive(a[1..]);
    }
  }

  lemma {:induction false} StrLessTransitive(a: string, b: string, c: string)
    requires StrLess(a, b) && StrLess(b, c)
    ensures StrLess(a, c)
    decreases |a|
  {
    if |a| > 0 && |b| > 0 && |c| > 0 && a[0] == b[0] == c[0] {
      StrLessTransitive(a[1..], b[1..], c[1..]);
    }
  }

  lemma {:induction false} StrLessTotal(a: string, b: string)
    ensures a == b || StrLess(a, b) || StrLess(b, a)
    decreases |a|
  {
    if |a| > 0 && |b| > 0 && a[0] == b[0] {
      StrLessTotal(a[1..], b[1..]);
      if a[1..] == b[1..] {
        assert a == [a[0]] + a[1..] && b == [b[0]] + b[1..];
      }
    }
  }

  lemma {:induction false} StrLessAsymmetric(a: string, b: string)
    requires StrLess(a, b)
    ensures !StrLess(b, a)
  {
    if StrLess(b, a) {
      StrLessTransitive(a, b, a);
      StrLessIrreflexive(a);
    }
  }

  /** `a` is a proper prefix of `b`. */
  predicate ProperPrefix(a: string, b: string) {
    |a| < |b| && a == b[..|a|]
  }

  /** `a` and `b` agree before position `k`, where `a` has the smaller
      character. */
  predicate SmallerAt(a: string, b: string, k: int) {
    0 <= k < |a| && k < |b| && a[..k] == b[..k] && a[k] < b[k]
  }

  lemma ProperPrefixShift(a: string, b: string)
    requires |a| > 0 && |b| > 0 && a[0] == b[0]
    ensures ProperPrefix(a, b) <==> ProperPrefix(a[1..], b[1..])
  {
    if ProperPrefix(a[1..], b[1..]) {
      assert a == [a[0]] + a[1..] == [b[0]] + b[1..][..|a| - 1] == b[..|a|];
    }
    if ProperPrefix(a, b) {
      assert a[1..] == b[..|a|][1..] == b[1..][..|a| - 1];
    }
  }

  lemma SmallerAtShift(a: string, b: string, k: nat)
    requires |a| > 0 && |b| > 0 && a[0] == b[0]
    ensures SmallerAt(a, b, k + 1) <==> SmallerAt(a[1..], b[1..], k)
  {
    if k + 1 < |a| && k + 1 < |b| {
      assert a[..k + 1] == [a[0]] + a[1..][..k];
      assert b[..k + 1] == [b[0]] + b[1..][..k];
      if a[..k + 1] == b[..k + 1] {
        assert a[1..][..k] == a[..k + 1][1..] == b[..k + 1][1..] == b[1..][..k];
      }
    }
  }

  /** Python's string order, as the standard describes it: `a < b` exactly
      when `a` is a proper prefix of `b`, or at the first position where
      they differ `a` has the smaller character. */
  lemma {:induction false} StrLessExactly(a: string, b: string)
    decreases |a|
    ensures StrLess(a, b) <==> ProperPrefix(a, b) || exists k :: SmallerAt(a, b, k)
  {
    if |a| > 0 && |b| > 0 && a[0] == b[0] {
      StrLessExactly(a[1..], b[1..]);
      ProperPrefixShift(a, b);
      if exists k :: SmallerAt(a, b, k) {
        var k :| SmallerAt(a, b, k);
        SmallerAtShift(a, b, k - 1);
      }
      if exists k :: SmallerAt(a[1..], b[1..], k) {
        var k :| SmallerAt(a[1..], b[1..], k);
        SmallerAtShift(a, b, k);
      }
    } else if |a| > 0 && |b| > 0 {
      forall k | 0 < k
        ensures !SmallerAt(a, b, k)
      {
        if k < |a| && k < |b| {
          assert a[..k][0] != b[..k][0];
        }
      }
      assert a[0] < b[0] ==> SmallerAt(a, b, 0);
      if |a| < |b| { assert b[..|a|][0] != a[0]; }
    }
  }
}
