/** Shared vocabulary: optional values, the JavaScript values that request
    bodies and stored documents may carry, HTTP failures, and a few
    sequence predicates used throughout the model. */
module Base {

  datatype Option<+T> = None | Some(value: T) {
    function GetOr(default: T): T {
      match this
      case Some(v) => v
      case None => default
    }
  }

  /** A JavaScript value as it can reach the backend from a request body or a
      loosely typed document field. Numbers are modelled as integers. */
  datatype Json =
    | Undefined
    | Null
    | Bool(b: bool)
    | Num(n: int)
    | Str(s: string)
    | Arr(items: seq<Json>)

  /** JavaScript truthiness of a value. */
  predicate Truthy(v: Json) {
    match v
    case Undefined => false
    case Null => false
    case Bool(b) => b
    case Num(n) => n != 0
    case Str(s) => s != ""
    case Arr(_) => true
  }

  /** How a handler ends without its normal reply: an error response it
      sends, by HTTP status, or an exception it throws. The async handlers
      are not wrapped, so a thrown exception never reaches the error
      middleware: the request gets no reply at all. A caller that catches
      the exception chooses its own reply. */
  datatype Failure =
    | BadRequest(message: string)   // 400
    | Forbidden                     // 403 'Not authorized'
    | NotFound(message: string)     // 404
    | Throws                        // an exception escapes the handler

  datatype Response<+T> = Ok(value: T) | Err(failure: Failure)

  /** Number of occurrences of `x` in `s`. */
  function Count<T(==)>(s: seq<T>, x: T): (n: nat)
    ensures n <= |s|
    ensures n == 0 <==> x !in s
  {
    if s == [] then 0 else (if s[0] == x then 1 else 0) + Count(s[1..], x)
  }

  lemma {:induction false} CountAppend<T>(s: seq<T>, t: seq<T>, x: T)
    ensures Count(s + t, x) == Count(s, x) + Count(t, x)
  {
    if s == [] {
      assert s + t == t;
    } else {
      assert (s + t)[1..] == s[1..] + t;
      CountAppend(s[1..], t, x);
    }
  }

  predicate NoDuplicates<T(==)>(s: seq<T>) {
    forall i, j :: 0 <= i < j < |s| ==> s[i] != s[j]
  }

  /** A sequence without repeats holds each value at most once. */
  lemma {:induction false} DistinctAtMostOnce<T>(s: seq<T>, x: T)
    requires NoDuplicates(s)
    ensures multiset(s)[x] <= 1
  {
    if s != [] {
      DistinctAtMostOnce(s[1..], x);
      assert s == [s[0]] + s[1..];
      if s[0] == x {
        assert x !in s[1..] by {
          forall k | 1 <= k < |s| ensures s[k] != x {
            assert s[0] != s[k];
          }
        }
      }
    }
  }

  /** A rearrangement of a sequence without repeats has none either. */
  lemma DistinctPermutation<T>(a: seq<T>, b: seq<T>)
    requires multiset(a) == multiset(b) && NoDuplicates(b)
    ensures NoDuplicates(a)
  {
    forall i, j | 0 <= i < j < |a| ensures a[i] != a[j] {
      if a[i] == a[j] {
        assert a == a[..j] + [a[j]] + a[j + 1..];
        assert a[i] in multiset(a[..j]);
        DistinctAtMostOnce(b, a[i]);
        assert false;
      }
    }
  }

  /** `a` can be obtained from `b` by deleting elements. */
  predicate IsSubsequence<T(==)>(a: seq<T>, b: seq<T>)
    decreases |b|
  {
    a == [] || (b != [] && ((a[0] == b[0] && IsSubsequence(a[1..], b[1..])) || IsSubsequence(a, b[1..])))
  }

  /** `s.indexOf(x)`: the first position holding `x`. */
  function IndexOf<T(==)>(s: seq<T>, x: T): (r: Option<nat>)
    ensures r.Some? ==> r.value < |s| && s[r.value] == x && x !in s[..r.value]
    ensures r.None? <==> x !in s
  {
    if s == [] then None
    else if s[0] == x then Some(0)
    else match IndexOf(s[1..], x)
      case None => None
      case Some(i) =>
        assert s[..i + 1] == [s[0]] + s[1..][..i];
        Some(i + 1)
  }

  /** `s.splice(i, 1)`: `s` without its entry at `i`. */
  function RemoveAt<T>(s: seq<T>, i: nat): (r: seq<T>)
    requires i < |s|
    ensures |r| == |s| - 1
    ensures forall k :: 0 <= k < i ==> r[k] == s[k]
    ensures forall k :: i <= k < |r| ==> r[k] == s[k + 1]
    ensures multiset(r) + multiset{s[i]} == multiset(s)
  {
    assert s == s[..i] + [s[i]] + s[i + 1..];
    s[..i] + s[i + 1..]
  }

  function Take<T>(s: seq<T>, n: nat): (r: seq<T>)
    ensures |r| == if n < |s| then n else |s|
    ensures r <= s
  {
    if n < |s| then s[..n] else s
  }

  /** One step of `.filter(Boolean)`: the head of the mapped entries is kept
      exactly when it is not ''. */
  lemma FilterStep(t: string, rest: seq<string>, e: seq<string>)
    requires e != [] && e[0] == t
    requires IsSubsequence(rest, e[1..])
    requires forall x :: x != "" ==> Count(rest, x) == Count(e[1..], x)
    ensures var r := if t == "" then rest else [t] + rest;
      && IsSubsequence(r, e)
      && forall x :: x != "" ==> Count(r, x) == Count(e, x)
  {
    if t != "" {
      assert ([t] + rest)[1..] == rest;
    }
  }
}
