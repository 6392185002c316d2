/**
  The small part of Python's semantics that the clock module leans on:
  optional values, the two exceptions its arithmetic and indexing can raise,
  floor division and modulo, sequence indexing (negative indices count from
  the end), the substring test `in`, `str.replace`, `''.join` and
  `s.split('/')[-1]`.
 */
module Python {

  datatype Option<+T> = None | Some(value: T)

  /** The exceptions the modelled code can raise and does not catch. */
  datatype Fault = ZeroDivisionError | IndexError

  /** The outcome of a computation that may raise. */
  datatype Result<+T> = Success(value: T) | Failure(error: Fault) {

    predicate IsFailure() {
      Failure?
    }

    function PropagateFailure<U>(): Result<U>
      requires Failure?
    {
      Failure(error)
    }

    function Extract(): T
      requires Success?
    {
      value
    }
  }

  /** Python's `a // b`: rounds toward negative infinity. */
  function FloorDiv(a: int, b: int): (q: int)
    requires b != 0
    ensures b > 0 ==> q * b <= a < q * b + b
    ensures b < 0 ==> q * b >= a > q * b + b
  {
    if b > 0 then a / b else (-a) / (-b)
  }

  /** Python's `a % b`: the remainder takes the sign of the divisor. */
  function FloorMod(a: int, b: int): (r: int)
    requires b != 0
    ensures a == b * FloorDiv(a, b) + r
    ensures b > 0 ==> 0 <= r < b
    ensures b < 0 ==> b < r <= 0
  {
    if b > 0 then a % b else -((-a) % (-b))
  }

  /** Quotient and remainder are the only ones with `0 <= r < k`. */
  lemma DivUnique(a: int, k: int, q: int, r: int)
    requires k > 0 && a == q * k + r && 0 <= r < k
    ensures a / k == q && a % k == r
  {
    var q' := a / k;
    var r' := a % k;
    assert a == q' * k + r' && 0 <= r' < k;
    if q > q' {
      MulAtLeast(q - q', k);
    } else if q < q' {
      MulAtLeast(q' - q, k);
    }
  }

  lemma {:induction false} MulAtLeast(d: int, k: int)
    requires d >= 1 && k > 0
    ensures d * k >= k
    decreases d
  {
    if d > 1 {
      MulAtLeast(d - 1, k);
      assert d * k == (d - 1) * k + k;
    }
  }

  lemma MulMonotone(a: int, b: int, p: int)
    requires a <= b && p > 0
    ensures a * p <= b * p
  {
    if a < b {
      MulAtLeast(b - a, p);
    }
  }

  lemma MultipleMod(x: int, y: int, n: int, q: int)
    requires n > 0 && x == n * q + y
    ensures (y - x) % n == 0
  {
    assert y - x == (-q) * n + 0;
    DivUnique(y - x, n, -q, 0);
  }

  /** Reducing first does not change the remainder. */
  lemma ModShift(x: int, k: int, m: int)
    requires m > 0
    ensures (x % m + k) % m == (x + k) % m
  {
    var q := x / m;
    var r := x % m;
    var q2 := (r + k) / m;
    var r2 := (r + k) % m;
    assert x == q * m + r;
    assert r + k == q2 * m + r2;
    assert x + k == (q + q2) * m + r2;
    DivUnique(x + k, m, q + q2, r2);
  }

  /** Python's `xs[i]`, including negative indices and the IndexError. */
  function Index<T>(xs: seq<T>, i: int): (r: Result<T>)
    ensures 0 <= i < |xs| ==> r == Success(xs[i])
    ensures -|xs| <= i < 0 ==> r == Success(xs[|xs| + i])
    ensures r.Failure? <==> !(-|xs| <= i < |xs|)
    ensures r.Failure? ==> r.error == IndexError
  {
    if 0 <= i < |xs| then Success(xs[i])
    else if -|xs| <= i < 0 then Success(xs[|xs| + i])
    else Failure(IndexError)
  }

  /** Python's `pat in s` on strings. */
  predicate Contains(s: string, pat: string)
    decreases |s|
  {
    if |s| < |pat| then false
    else s[..|pat|] == pat || Contains(s[1..], pat)
  }

  /** `pat` occurs in `s` starting at position `i`. */
  predicate OccursAt(s: string, pat: string, i: int) {
    0 <= i && i + |pat| <= |s| && s[i..i + |pat|] == pat
  }

  /** `pat in s` holds exactly when `pat` occurs at some position of `s`. */
  lemma {:induction false} ContainsOccurs(s: string, pat: string)
    ensures Contains(s, pat) <==> exists i :: OccursAt(s, pat, i)
    decreases |s|
  {
    if |s| >= |pat| {
      if s[..|pat|] == pat {
        assert OccursAt(s, pat, 0);
      } else {
        var t := s[1..];
        ContainsOccurs(t, pat);
        if Contains(t, pat) {
          var j :| OccursAt(t, pat, j);
          assert t[j..j + |pat|] == s[j + 1..j + 1 + |pat|];
          assert OccursAt(s, pat, j + 1);
        } else {
          forall i | OccursAt(s, pat, i)
            ensures OccursAt(t, pat, i - 1)
          {
            assert s[..|pat|] == s[0..|pat|];
            assert t[i - 1..i - 1 + |pat|] == s[i..i + |pat|];
          }
        }
      }
    }
  }

  /** Python's `s.replace(pat, rep)`: non-overlapping occurrences of `pat`,
      found left to right, are replaced by `rep`. */
  function Replace(s: string, pat: string, rep: string): (r: string)
    requires |pat| > 0
    ensures !Contains(s, pat) ==> r == s
    ensures |pat| == |rep| ==> |r| == |s|
    decreases |s|
  {
    if |s| < |pat| then s
    else if s[..|pat|] == pat then rep + Replace(s[|pat|..], pat, rep)
    else [s[0]] + Replace(s[1..], pat, rep)
  }

  /** Replacing one character by another maps the string pointwise. */
  lemma {:induction false} ReplaceChar(s: string, a: char, b: char)
    ensures |Replace(s, [a], [b])| == |s|
    ensures forall i :: 0 <= i < |s| ==>
              Replace(s, [a], [b])[i] == (if s[i] == a then b else s[i])
    decreases |s|
  {
    if |s| > 0 {
      ReplaceChar(s[1..], a, b);
      var r := Replace(s, [a], [b]);
      assert s[..1] == [s[0]];
      assert r == [if s[0] == a then b else s[0]] + Replace(s[1..], [a], [b]);
    }
  }

  /** Python's `''.join(parts)`. */
  function Join(parts: seq<string>): (r: string)
    ensures |parts| == 1 ==> r == parts[0]
  {
    if |parts| == 0 then "" else parts[0] + Join(parts[1..])
  }

  /** Joining is concatenation in order, with nothing between the parts:
      joining two lists of parts one after the other is joining each and
      gluing the results. */
  lemma {:induction false} JoinAppend(a: seq<string>, b: seq<string>)
    ensures Join(a + b) == Join(a) + Join(b)
    decreases |a|
  {
    if |a| > 0 {
      assert (a + b)[1..] == a[1..] + b;
      JoinAppend(a[1..], b);
    } else {
      assert a + b == b;
    }
  }

  /** Every part lies in the joined text at the offset its predecessors
      take up. */
  lemma {:induction false} JoinPart(parts: seq<string>, i: nat)
    requires i < |parts|
    ensures Join(parts) == Join(parts[..i]) + parts[i] + Join(parts[i + 1..])
    decreases i
  {
    if i == 0 {
      assert parts[..0] == [];
    } else {
      var rest := parts[1..];
      JoinPart(rest, i - 1);
      assert rest[..i - 1] == parts[..i][1..];
      assert rest[i - 1] == parts[i] && rest[i..] == parts[i + 1..];
      assert parts[..i][0] == parts[0];
    }
  }

  /** Python's `s.split('/')[-1]`: the longest suffix free of `/`. */
  function LastSegment(s: string): (r: string)
    ensures '/' !in r
    ensures |r| <= |s| && r == s[|s| - |r|..]
    ensures |r| < |s| ==> s[|s| - |r| - 1] == '/'
  {
    if |s| == 0 then ""
    else if s[|s| - 1] == '/' then ""
    else LastSegment(s[..|s| - 1]) + [s[|s| - 1]]
  }
}
