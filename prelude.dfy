/** Shared vocabulary: optional values, results for thrown errors, and the
    string operations the TypeScript code borrows from its runtime. */
module Prelude {

  datatype Option<+T> = None | Some(value: T)

  /** A thrown `Error` is modelled by `Err` carrying the error's message. */
  datatype Result<+T> = Ok(value: T) | Err(message: string)

  /** `s.startsWith(p)` */
  predicate StartsWith(s: string, p: string) {
    |p| <= |s| && s[..|p|] == p
  }

  /** `s.endsWith(p)` */
  predicate EndsWith(s: string, p: string) {
    |p| <= |s| && s[|s| - |p|..] == p
  }

  /** JavaScript truthiness of an optional string: `undefined`, `null` and `""` are falsy. */
  predicate Truthy(s: Option<string>) {
    s.Some? && s.value != ""
  }

  /** `parts.join(sep)` */
  function Join(parts: seq<string>, sep: string): (r: string)
    ensures parts == [] ==> r == ""
    ensures |parts| == 1 ==> r == parts[0]
  {
    if parts == [] then ""
    else if |parts| == 1 then parts[0]
    else parts[0] + sep + Join(parts[1..], sep)
  }

  /** The element appended by a push is found again as the last element. */
  lemma JoinAppend(parts: seq<string>, x: string, sep: string)
    requires parts != []
    ensures Join(parts + [x], sep) == Join(parts, sep) + sep + x
  {
    if |parts| == 1 {
      assert (parts + [x])[1..] == [x];
    } else {
      assert (parts + [x])[1..] == parts[1..] + [x];
      JoinAppend(parts[1..], x, sep);
    }
  }

  /** The joined parts before part i, followed by the separator. */
  function JoinUpTo(parts: seq<string>, i: nat, sep: string): string
    requires i <= |parts|
  {
    if i == 0 then "" else Join(parts[..i], sep) + sep
  }

  /** The separator, followed by the joined parts after part i. */
  function JoinAfter(parts: seq<string>, i: nat, sep: string): string
    requires i < |parts|
  {
    if i == |parts| - 1 then "" else sep + Join(parts[i + 1..], sep)
  }

  /** Each part is found whole in the joined text, between the parts before
      it and the parts after it. */
  lemma {:induction false} JoinAt(parts: seq<string>, i: nat, sep: string)
    requires i < |parts|
    ensures Join(parts, sep) == JoinUpTo(parts, i, sep) + (parts[i] + JoinAfter(parts, i, sep))
  {
    if i > 0 {
      var tail := parts[1..];
      JoinAt(tail, i - 1, sep);
      var u, a := JoinUpTo(tail, i - 1, sep), JoinAfter(tail, i - 1, sep);
      JoinUpToStep(parts, i, sep);
      JoinAfterStep(parts, i, sep);
      assert Join(parts, sep) == parts[0] + sep + (u + (parts[i] + a));
      Regroup(parts[0] + sep, u, parts[i] + a);
    }
  }

  /** The parts before part i are the first part and the tail's parts before i - 1. */
  lemma JoinUpToStep(parts: seq<string>, i: nat, sep: string)
    requires 0 < i < |parts|
    ensures JoinUpTo(parts, i, sep) == parts[0] + sep + JoinUpTo(parts[1..], i - 1, sep)
  {
    var tail := parts[1..];
    if i == 1 {
      assert parts[..1] == [parts[0]];
    } else {
      assert parts[..i][1..] == tail[..i - 1];
      var j := Join(tail[..i - 1], sep);
      assert Join(parts[..i], sep) == parts[0] + sep + j;
      Regroup(parts[0] + sep, j, sep);
    }
  }

  /** The parts after part i are the tail's parts after i - 1. */
  lemma JoinAfterStep(parts: seq<string>, i: nat, sep: string)
    requires 0 < i < |parts|
    ensures JoinAfter(parts, i, sep) == JoinAfter(parts[1..], i - 1, sep)
  {
    assert parts[1..][i..] == parts[i + 1..];
  }

  lemma Regroup(x: string, y: string, z: string)
    ensures x + (y + z) == (x + y) + z
  {
  }

  predicate Distinct<T(==)>(s: seq<T>) {
    forall i, j :: 0 <= i < j < |s| ==> s[i] != s[j]
  }

  /** The decimal digits a Hono route pattern `[0-9]+` accepts. */
  predicate IsDigits(s: string) {
    |s| > 0 && forall i :: 0 <= i < |s| ==> '0' <= s[i] <= '9'
  }

  /** `parseInt(s)` on a string of decimal digits (floating-point precision left out). */
  function ParseDigits(s: string): (n: nat)
    requires IsDigits(s)
    ensures s == "1" ==> n == 1
  {
    if |s| == 1 then (s[0] as int - '0' as int)
    else ParseDigits(s[..|s| - 1]) * 10 + (s[|s| - 1] as int - '0' as int)
  }

  /** A concatenation starts with its first part, followed by the second. */
  lemma Concat(a: string, b: string)
    ensures StartsWith(a + b, a) && (a + b)[|a|..] == b
  {
    assert (a + b)[..|a|] == a;
  }

  /** `r` is `head`, then `body`, then `tail`, each at the offset the lengths
      before it give. */
  predicate Framed(r: string, head: string, body: string, tail: string) {
    && |r| == |head| + |body| + |tail|
    && r[..|head|] == head
    && r[|head|..|r| - |tail|] == body
    && r[|r| - |tail|..] == tail
  }

  /** A text written between a fixed head and a fixed tail is found again
      between them. */
  lemma Around(head: string, body: string, tail: string)
    ensures Framed(head + (body + tail), head, body, tail)
  {
    var r := head + (body + tail);
    Concat(head, body + tail);
    Concat(body, tail);
    assert r[|r| - |tail|..] == (body + tail)[|body|..];
    assert r[|head|..|r| - |tail|] == (body + tail)[..|body|];
  }

  /** Five strings concatenated: each is found again at the offset the
      lengths of the ones before it give. */
  lemma Pieces(a: string, b: string, c: string, d: string, e: string)
    ensures var r := a + (b + (c + (d + e)));
            var i := |a|;
            var j := i + |b| + |c|;
            && |r| == j + |d| + |e|
            && r[..i] == a
            && r[i..i + |b|] == b
            && r[i + |b|..j] == c
            && r[j..j + |d|] == d
            && r[j + |d|..] == e
  {
    var s3 := d + e;
    var s2 := c + s3;
    var s1 := b + s2;
    var r := a + s1;
    var i := |a|;
    var j := i + |b| + |c|;
    assert r[..i] == a && r[i..] == s1 by { Concat(a, s1); }
    assert r[i..i + |b|] == b && r[i + |b|..] == s2 by {
      Concat(b, s2);
      assert r[i..i + |b|] == s1[..|b|];
      assert r[i + |b|..] == s1[|b|..];
    }
    assert r[i + |b|..j] == c && r[j..] == s3 by {
      Concat(c, s3);
      assert r[i + |b|..j] == s2[..|c|];
      assert r[j..] == s2[|c|..];
    }
    assert r[j..j + |d|] == d && r[j + |d|..] == e by {
      Concat(d, e);
      assert r[j..j + |d|] == s3[..|d|];
      assert r[j + |d|..] == s3[|d|..];
    }
  }

  /** Products, kept as separate facts so that non-linear arithmetic stays
      out of the proofs that use them. */
  lemma MulMonotonic(a: int, b: int, c: int)
    requires a <= b && c > 0
    ensures a * c <= b * c && c * a <= c * b
  {
  }

  lemma MulSucc(n: nat, k: nat)
    ensures (n + 1) * k == n * k + k
  {
  }

  lemma MulPositive(n: nat, k: nat)
    ensures n * k > 0 <==> n > 0 && k > 0
  {
  }
}
