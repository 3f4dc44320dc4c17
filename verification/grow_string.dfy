/** The growable strings of the demanglers for D and for the old C++ styles. */
module GrowStrings {
  /** A growable string: a buffer that may be missing and the end of the text in it. */
  class GrowString {
    var b: array?<char>
    var p: nat

    ghost predicate Valid()
      reads this
    {
      if b == null then p == 0 else p <= b.Length
    }

    function Contents(): string
      requires Valid()
      reads this, b
    {
      if b == null then "" else b[..p]
    }

    ghost function Footprint(): set<object>
      reads this
    {
      {this} + if b == null then {} else {b}
    }

    constructor ()
      ensures Valid() && Contents() == "" && fresh(Footprint())
    {
      b, p := null, 0;
    }

    /** Room for `n` more characters: at least 32 at first, then twice what is needed. */
    method Need(n: nat)
      requires Valid()
      modifies this
      ensures Valid() && Contents() == old(Contents()) && b != null && n <= b.Length - p
      ensures b == old(b) || fresh(b)
    {
      if b == null {
        b := new char[if n < 32 then 32 else n];
        p := 0;
      } else if b.Length - p < n {
        var resized := new char[2 * (n + p)];
        var old_ := b;
        for i := 0 to p
          invariant b == old_ && p == old(p)
          invariant forall k | 0 <= k < i :: resized[k] == old_[k]
        {
          resized[i] := old_[i];
        }
        b := resized;
        assert b[..p] == old(b[..p]);
      }
    }

    method Append(s: string)
      requires Valid()
      modifies Footprint()
      ensures Valid() && Contents() == old(Contents()) + s && fresh(Footprint() - old(Footprint()))
    {
      Need(|s|);
      CopyIn(s, p);
      p := p + |s|;
    }

    /** memcpy of `s` to the buffer at `at`. */
    method CopyIn(s: string, at: nat)
      requires Valid() && b != null && at + |s| <= b.Length
      modifies b
      ensures b[at..at + |s|] == s
      ensures forall k | 0 <= k < b.Length && !(at <= k < at + |s|) :: b[k] == old(b[k])
    {
      for i := 0 to |s|
        invariant forall k | 0 <= k < i :: b[at + k] == s[k]
        invariant forall k | 0 <= k < b.Length && !(at <= k < at + i) :: b[k] == old(b[k])
      {
        b[at + i] := s[i];
      }
    }

    /** Appends nothing, and allocates nothing, for an empty text. */
    method AppendN(s: string)
      requires Valid()
      modifies Footprint()
      ensures Valid() && Contents() == old(Contents()) + s && fresh(Footprint() - old(Footprint()))
    {
      if s != "" {
        Append(s);
      }
    }

    /** Moves the text up from its end and puts `s` in front. */
    method PrependN(s: string)
      requires Valid()
      modifies Footprint()
      ensures Valid() && Contents() == s + old(Contents()) && fresh(Footprint() - old(Footprint()))
    {
      if s == "" {
        assert "" + old(Contents()) == old(Contents());
        return;
      }
      Need(|s|);
      ghost var text := Contents();
      MoveUp(|s|);
      CopyIn(s, 0);
      p := p + |s|;
      TwoParts(b[..], s, text);
      assert b[..p] == b[..][..p];
    }

    static lemma TwoParts(whole: string, front: string, end: string)
      requires |front| + |end| <= |whole| && whole[..|front|] == front
      requires forall k | 0 <= k < |end| :: whole[|front| + k] == end[k]
      ensures whole[..|front| + |end|] == front + end
    {
      assert whole[|front|..|front| + |end|] == end;
    }

    /** Character by character, from the last one on. */
    method MoveUp(n: nat)
      requires Valid() && b != null && p + n <= b.Length
      modifies b
      ensures forall k | 0 <= k < p :: b[k + n] == old(b[k])
    {
      var q := p;
      while q > 0
        invariant 0 <= q <= p
        invariant forall k | 0 <= k < q :: b[k] == old(b[k])
        invariant forall k | q <= k < p :: b[k + n] == old(b[k])
      {
        q := q - 1;
        b[q + n] := b[q];
      }
    }

    /** Only ever shortens the text. */
    method SetLength(n: nat)
      requires Valid()
      modifies this`p
      ensures Footprint() == old(Footprint()) && b == old(b)
      ensures Valid() && Contents() == if n < |old(Contents())| then old(Contents())[..n] else old(Contents())
    {
      if n < p { p := n; }
    }
  }
}
