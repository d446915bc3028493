/** The three operations of Go's `strings` package that the censor relies on,
    on byte strings: `Split(s, " ")`, `Join(ps, " ")` and an ASCII `ToLower`. */
module GoStrings {

  /** A Go string is a sequence of bytes; `len` counts them. */
  newtype byte = b: int | 0 <= b < 256

  /** The separator the censor splits and joins on: the single byte `' '`. */
  const Space: byte := 32

  predicate IsUpper(b: byte) { 65 <= b <= 90 }

  /** A piece produced by splitting on `' '` holds no space byte. */
  predicate SpaceFree(p: seq<byte>)
  {
    forall i :: 0 <= i < |p| ==> p[i] != Space
  }

  predicate AllSpaceFree(ps: seq<seq<byte>>)
  {
    forall i :: 0 <= i < |ps| ==> SpaceFree(ps[i])
  }

  /** `strings.Join(ps, " ")`: the pieces with one space between neighbours.
      Joining space-free pieces adds exactly one space per gap, and the
      result starts with the first piece. */
  function Join(ps: seq<seq<byte>>): (r: seq<byte>)
    ensures |ps| == 0 ==> r == []
    ensures |ps| >= 1 && AllSpaceFree(ps) ==> Count(r, Space) == |ps| - 1
  {
    if |ps| == 0 then []
    else if |ps| == 1 then
      CountSpaceFree(ps[0]);
      ps[0]
    else
      var rest := Join(ps[1..]);
      assert AllSpaceFree(ps) ==> SpaceFree(ps[0]) && AllSpaceFree(ps[1..]) by {
        if AllSpaceFree(ps) {
          forall i | 0 <= i < |ps| - 1 ensures SpaceFree(ps[1..][i]) {
            assert ps[1..][i] == ps[i + 1];
          }
        }
      }
      CountSpaceFree(ps[0]);
      CountConcat(ps[0], [Space] + rest, Space);
      CountConcat([Space], rest, Space);
      assert ps[0] + [Space] + rest == ps[0] + ([Space] + rest);
      ps[0] + [Space] + rest
  }

  /** Counting over a concatenation adds the counts of the two parts. */
  lemma {:induction false} CountConcat(a: seq<byte>, b: seq<byte>, x: byte)
    ensures Count(a + b, x) == Count(a, x) + Count(b, x)
  {
    if |a| > 0 {
      assert (a + b)[1..] == a[1..] + b;
      CountConcat(a[1..], b, x);
    } else {
      assert a + b == b;
    }
  }

  /** A space-free piece holds no space to count. */
  lemma {:induction false} CountSpaceFree(p: seq<byte>)
    ensures SpaceFree(p) ==> Count(p, Space) == 0
  {
    if |p| > 0 && SpaceFree(p) {
      CountSpaceFree(p[1..]);
    }
  }

  /** `strings.Split(s, " ")`: the maximal space-free runs between spaces.
      Empty runs are kept, so there is always one piece more than there are
      spaces, and the empty string gives a single empty piece. */
  function Split(s: seq<byte>): (r: seq<seq<byte>>)
    ensures |r| == Count(s, Space) + 1
    ensures AllSpaceFree(r)
    ensures Join(r) == s
  {
    if |s| == 0 then [[]]
    else
      var rest := Split(s[1..]);
      if s[0] == Space then
        assert s == [Space] + s[1..];
        [[]] + rest
      else
        assert Join([[s[0]] + rest[0]] + rest[1..]) == [s[0]] + Join(rest) by {
          if |rest| > 1 {
            assert ([[s[0]] + rest[0]] + rest[1..])[1..] == rest[1..];
          }
        }
        assert s == [s[0]] + s[1..];
        [[s[0]] + rest[0]] + rest[1..]
  }

  /** Number of occurrences of byte `b` in `s`. */
  function Count(s: seq<byte>, b: byte): nat
  {
    if |s| == 0 then 0 else (if s[0] == b then 1 else 0) + Count(s[1..], b)
  }

  /** The byte `unicode.ToLower` gives for an ASCII byte: upper-case letters
      move to lower case, every other byte is unchanged. */
  function LowerByte(b: byte): byte
  {
    if IsUpper(b) then b + 32 else b
  }

  /** `strings.ToLower`, restricted to the ASCII mapping. */
  function ToLower(s: seq<byte>): (r: seq<byte>)
    ensures |r| == |s|
    ensures forall i :: 0 <= i < |s| ==> !IsUpper(r[i])
    ensures forall i :: 0 <= i < |s| ==> r[i] == s[i] || (IsUpper(s[i]) && r[i] == s[i] + 32)
  {
    seq(|s|, i requires 0 <= i < |s| => LowerByte(s[i]))
  }

  /** Splitting inverts joining: space-free pieces come back one for one,
      empty pieces included. */
  lemma {:induction false} SplitJoin(ps: seq<seq<byte>>)
    requires |ps| >= 1 && AllSpaceFree(ps)
    ensures Split(Join(ps)) == ps
    decreases |Join(ps)|
  {
    var p := ps[0];
    if |p| == 0 {
      if |ps| > 1 {
        var tail := ps[1..];
        assert Join(ps) == [Space] + Join(tail);
        SplitJoin(tail);
        assert Join(ps)[1..] == Join(tail);
        assert ps == [[]] + tail;
      }
    } else {
      var qs := [p[1..]] + ps[1..];
      assert AllSpaceFree(qs) by {
        forall i | 0 <= i < |qs| ensures SpaceFree(qs[i]) {
          if i > 0 { assert qs[i] == ps[i]; }
        }
      }
      JoinCons(ps, qs);
      SplitJoin(qs);
      assert Join(ps)[1..] == Join(qs);
      assert p == [p[0]] + qs[0];
      assert qs[1..] == ps[1..];
      assert ps == [[p[0]] + qs[0]] + qs[1..];
    }
  }

  /** Moving the first byte of the first piece out of the join. */
  lemma JoinCons(ps: seq<seq<byte>>, qs: seq<seq<byte>>)
    requires |ps| >= 1 && |ps[0]| >= 1
    requires qs == [ps[0][1..]] + ps[1..]
    ensures Join(ps) == [ps[0][0]] + Join(qs)
  {
  }

  /** Joining shorter pieces gives a shorter string: the join is no longer
      when no piece is longer, and strictly shorter exactly when some piece is. */
  lemma {:induction false} JoinShorter(ps: seq<seq<byte>>, qs: seq<seq<byte>>)
    requires |ps| == |qs|
    requires forall i :: 0 <= i < |ps| ==> |qs[i]| <= |ps[i]|
    ensures |Join(qs)| <= |Join(ps)|
    ensures (exists i :: 0 <= i < |ps| && |qs[i]| < |ps[i]|) <==> |Join(qs)| < |Join(ps)|
  {
    if |ps| > 1 {
      JoinShorter(ps[1..], qs[1..]);
      if exists i :: 0 <= i < |ps| && |qs[i]| < |ps[i]| {
        var i :| 0 <= i < |ps| && |qs[i]| < |ps[i]|;
        if i > 0 {
          assert |qs[1..][i - 1]| < |ps[1..][i - 1]|;
        }
      }
      if exists i :: 0 <= i < |ps| - 1 && |qs[1..][i]| < |ps[1..][i]| {
        var i :| 0 <= i < |ps| - 1 && |qs[1..][i]| < |ps[1..][i]|;
        assert |qs[i + 1]| < |ps[i + 1]|;
      }
    }
  }
}
