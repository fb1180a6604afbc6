/** The C library string routines that the policy loaders rely on, modelled
    on NUL-free strings: a C string is the sequence of its characters before
    the terminating NUL, and a `char *` cursor that may be NULL is an
    `Option<string>` holding the text it still points at. */
module CStrings {
  import opened Wrappers

  /** strcspn(s, reject) for a single reject character: the length of the
      longest prefix of `s` without `reject`. */
  function Strcspn(s: string, reject: char): (n: nat)
    ensures n <= |s|
    ensures forall k :: 0 <= k < n ==> s[k] != reject
    ensures n < |s| ==> s[n] == reject
  {
    if s == [] || s[0] == reject then 0 else 1 + Strcspn(s[1..], reject)
  }

  /** strsep(&p, delim) for a single delimiter. On a NULL cursor it returns
      NULL and leaves the cursor NULL; otherwise it returns the text before
      the first `delim` and moves the cursor past it, or to NULL when `delim`
      does not occur. Result: (returned token, new cursor). */
  function Strsep(p: Option<string>, delim: char): (r: (Option<string>, Option<string>))
    ensures p.None? ==> r.0.None? && r.1.None?
    ensures p.Some? ==> r.0.Some? && delim !in r.0.value
    ensures p.Some? && r.1.None? ==> r.0.value == p.value
    ensures p.Some? && r.1.Some? ==> p.value == r.0.value + [delim] + r.1.value
  {
    if p.None? then (None, None)
    else
      var s := p.value;
      var n := Strcspn(s, delim);
      if n == |s| then (Some(s), None) else (Some(s[..n]), Some(s[n + 1..]))
  }

  /** The tokens that repeated strsep(&p, delim) calls return, in order, before
      the first NULL. A non-NULL cursor always yields at least one token. */
  function Tokens(p: Option<string>, delim: char): (ts: seq<string>)
    ensures p.Some? ==> |ts| >= 1
    ensures forall t :: t in ts ==> delim !in t
    decreases if p.Some? then |p.value| + 1 else 0
  {
    if p.None? then []
    else
      var (tok, rest) := Strsep(p, delim);
      [tok.value] + Tokens(rest, delim)
  }

  /** `s` split at every `delim`, as the strsep loops of the loaders split it. */
  function Split(s: string, delim: char): seq<string>
  {
    Tokens(Some(s), delim)
  }

  /** The inverse of Split: the pieces glued back together with `delim`. */
  function Join(ts: seq<string>, delim: char): string
  {
    if ts == [] then []
    else if |ts| == 1 then ts[0]
    else ts[0] + [delim] + Join(ts[1..], delim)
  }

  /** One strsep step consumes exactly the first of the remaining tokens. */
  lemma StrsepStep(p: Option<string>, delim: char)
    ensures Strsep(p, delim).0.None? ==> Strsep(p, delim).1.None?
    ensures Tokens(p, delim) == ToSeq(Strsep(p, delim).0) + Tokens(Strsep(p, delim).1, delim)
  {
  }

  /** A strsep(&p, delim) call site: the returned token and the new cursor. */
  method StrsepCall(p: Option<string>, delim: char) returns (tok: Option<string>, rest: Option<string>)
    ensures (tok, rest) == Strsep(p, delim)
    ensures tok.None? ==> rest.None?
    ensures Tokens(p, delim) == ToSeq(tok) + Tokens(rest, delim)
  {
    StrsepStep(p, delim);
    var r := Strsep(p, delim);
    tok, rest := r.0, r.1;
  }

  lemma {:induction false} StrcspnOfJoin(a: string, delim: char, b: string)
    requires delim !in a
    ensures Strcspn(a + [delim] + b, delim) == |a|
  {
    if a != [] {
      assert (a + [delim] + b)[1..] == a[1..] + [delim] + b;
      StrcspnOfJoin(a[1..], delim, b);
    }
  }

  /** Splitting undoes joining pieces that do not contain the delimiter. */
  lemma {:induction false} SplitJoin(ts: seq<string>, delim: char)
    requires ts != []
    requires forall t :: t in ts ==> delim !in t
    ensures Split(Join(ts, delim), delim) == ts
  {
    assert ts[0] in ts;
    if |ts| == 1 {
      assert Strsep(Some(ts[0]), delim) == (Some(ts[0]), None);
      assert Split(ts[0], delim) == [ts[0]] + Tokens(None, delim);
    } else {
      var j := Join(ts[1..], delim);
      StrcspnOfJoin(ts[0], delim, j);
      var s := ts[0] + [delim] + j;
      assert s[..|ts[0]|] == ts[0];
      assert s[|ts[0]| + 1..] == j;
      SplitJoin(ts[1..], delim);
      assert Split(s, delim) == [ts[0]] + Split(j, delim);
    }
  }

  /** Joining undoes splitting: no character of the text is lost or added. */
  lemma {:induction false} JoinSplit(s: string, delim: char)
    ensures Join(Split(s, delim), delim) == s
    decreases |s|
  {
    var (tok, rest) := Strsep(Some(s), delim);
    assert Split(s, delim) == [tok.value] + Tokens(rest, delim);
    if rest.Some? {
      JoinSplit(rest.value, delim);
    } else {
      assert Split(s, delim) == [s];
    }
  }

  /** Joining adds only delimiters: a character other than `delim` occurs
      in the result exactly when it occurs in one of the pieces. */
  lemma {:induction false} JoinAvoids(ts: seq<string>, delim: char, c: char)
    requires c != delim
    ensures c in Join(ts, delim) <==> exists t :: t in ts && c in t
  {
    if |ts| > 1 {
      JoinAvoids(ts[1..], delim, c);
      assert ts == [ts[0]] + ts[1..];
      assert forall t :: t in ts <==> t == ts[0] || t in ts[1..];
    } else if |ts| == 1 {
      assert forall t :: t in ts <==> t == ts[0];
    }
  }

  /** The first `n` elements of `s` (all of `s` when it is shorter). On
      strings this is the C string that strncpy(dst, s, n) leaves in a
      zero-filled buffer longer than `n`. */
  function Take<T>(s: seq<T>, n: nat): (r: seq<T>)
    ensures r <= s
    ensures |r| == if |s| <= n then |s| else n
  {
    if |s| <= n then s else s[..n]
  }

  /** strncmp(a, b, n) == 0: the two strings agree on their first `n`
      characters, where the terminator of a shorter string takes part. */
  predicate StrnEq(a: string, b: string, n: nat)
  {
    Take(a, n) == Take(b, n)
  }

  /** Comparing with a bound larger than one string's length is exact equality. */
  lemma StrnEqExact(a: string, b: string, n: nat)
    requires |b| < n
    ensures StrnEq(a, b, n) <==> a == b
  {
  }
}
