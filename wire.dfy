/**
 * The abstract channel alphabet of the RoboDK API client.
 *
 * The socket carries big-endian bytes; this model hides the byte layout behind
 * tokens: a newline-terminated text line, a 4-byte signed integer, an 8-byte
 * unsigned item identifier and an 8-byte double. A double is kept abstract
 * (type parameter D): the client only copies doubles, it never computes on them
 * in the modelled core.
 */
module Wire {

  const Int32Max: int := 0x7FFF_FFFF
  const Int32Min: int := -0x8000_0000

  /** The values a C `int` / `qint32` can hold. */
  predicate IsInt32(x: int) {
    Int32Min <= x <= Int32Max
  }

  function Min(a: int, b: int): int { if a <= b then a else b }
  function Max(a: int, b: int): int { if a >= b then a else b }

  datatype Option<T> = None | Some(value: T)

  /** One unit of the byte stream. A Line holds the text of one line without its newline. */
  datatype Tok<D> = Line(text: string) | I32(value: int) | U64(id: nat) | Dbl(d: D)

  lemma ConcatAssoc<T>(a: seq<T>, b: seq<T>, c: seq<T>)
    ensures (a + b) + c == a + (b + c)
  {
  }

  lemma ConcatAssoc3<T>(o: seq<T>, a: seq<T>, b: seq<T>, c: seq<T>)
    ensures ((o + a) + b) + c == o + ((a + b) + c)
  {
    ConcatAssoc(o, a, b);
    ConcatAssoc(o, a + b, c);
  }

  /** The tokens that carry the doubles vs, in order. */
  function Dbls<D>(vs: seq<D>): (r: seq<Tok<D>>)
    ensures |r| == |vs|
    ensures forall k :: 0 <= k < |r| ==> r[k] == Dbl(vs[k])
  {
    seq(|vs|, k requires 0 <= k < |vs| => Dbl(vs[k]))
  }

  lemma DblsAppend<D>(vs: seq<D>, v: D)
    ensures Dbls(vs + [v]) == Dbls(vs) + [Dbl(v)]
  {
  }

  /** The first n tokens of s exist and are all doubles (n doubles are available). */
  predicate HasDbls<D>(s: seq<Tok<D>>, n: int) {
    0 <= n <= |s| && forall k :: 0 <= k < n ==> s[k].Dbl?
  }

  /** The doubles carried by a run of double tokens. */
  function DblValues<D>(s: seq<Tok<D>>): (vs: seq<D>)
    requires HasDbls(s, |s|)
    ensures |vs| == |s| && Dbls(vs) == s
  {
    seq(|s|, k requires 0 <= k < |s| => s[k].d)
  }

  lemma DblValuesOfDbls<D>(vs: seq<D>)
    ensures HasDbls(Dbls(vs), |vs|) && DblValues(Dbls(vs)) == vs
  {
  }

  /** How many double tokens s starts with: everything that has arrived of a run of doubles. */
  function LeadingDbls<D>(s: seq<Tok<D>>): (n: nat)
    ensures HasDbls(s, n)
    ensures n < |s| ==> !s[n].Dbl?
  {
    if |s| > 0 && s[0].Dbl? then 1 + LeadingDbls(s[1..]) else 0
  }

  // ---------------------------------------------------------------------------
  // QByteArray::trimmed, applied to every received line

  /** ASCII white space as QByteArray::trimmed sees it: '\t', '\n', '\v', '\f', '\r' and ' '. */
  predicate IsSpace(c: char) {
    c == ' ' || 9 <= c as int <= 13
  }

  /** t without its leading white space. */
  function TrimLeft(t: string): (r: string)
    ensures |r| <= |t| && r == t[|t| - |r|..]
    ensures forall k :: 0 <= k < |t| - |r| ==> IsSpace(t[k])
    ensures r == [] || !IsSpace(r[0])
  {
    if |t| > 0 && IsSpace(t[0]) then TrimLeft(t[1..]) else t
  }

  /** t without its trailing white space. */
  function TrimRight(t: string): (r: string)
    ensures |r| <= |t| && r == t[..|r|]
    ensures forall k :: |r| <= k < |t| ==> IsSpace(t[k])
    ensures r == [] || !IsSpace(r[|r| - 1])
  {
    if |t| > 0 && IsSpace(t[|t| - 1]) then TrimRight(t[..|t| - 1]) else t
  }

  /** A text that neither starts nor ends with white space. */
  predicate IsTrimmed(t: string) {
    t == [] || (!IsSpace(t[0]) && !IsSpace(t[|t| - 1]))
  }

  function Trim(t: string): (r: string)
    ensures IsTrimmed(r)
  {
    TrimRight(TrimLeft(t))
  }

  /** Trimming removes white space only at the two ends, and leaves a trimmed text as it is. */
  lemma {:induction false} TrimKeepsMiddle(t: string)
    ensures exists a, b :: (0 <= a <= b <= |t| && Trim(t) == t[a..b]
                            && (forall k :: 0 <= k < a ==> IsSpace(t[k]))
                            && (forall k :: b <= k < |t| ==> IsSpace(t[k])))
    ensures IsTrimmed(t) ==> Trim(t) == t
  {
    var l := TrimLeft(t);
    var a := |t| - |l|;
    var r := TrimRight(l);
    var b := a + |r|;
    assert l == t[a..];
    assert r == l[..|r|];
    assert Trim(t) == t[a..b];
    forall k | b <= k < |t| ensures IsSpace(t[k]) {
      assert t[k] == l[k - a];
    }
    if IsTrimmed(t) {
      if |t| > 0 {
        assert !IsSpace(t[0]);
        assert a == 0;
        assert !IsSpace(l[|l| - 1]);
      }
    }
  }

  // ---------------------------------------------------------------------------
  // Repeated steps

  /** x after k applications of f. */
  function Iterate<T>(f: T -> T, x: T, k: nat): T {
    if k == 0 then x else Iterate(f, f(x), k - 1)
  }

  /** a applications of f followed by b more are a + b applications. */
  lemma {:induction false} IterateAdd<T>(f: T -> T, x: T, a: nat, b: nat)
    ensures Iterate(f, Iterate(f, x, a), b) == Iterate(f, x, a + b)
    decreases a
  {
    if a != 0 {
      IterateAdd(f, f(x), a - 1, b);
    }
  }
}
