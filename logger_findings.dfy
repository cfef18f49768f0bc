/** make_format in both loggers reads the character after every '%' and
    skips it. A format whose last character is a '%' of its own makes it
    read one past the end, and step the iterator past end(). */
module LoggerFindings {
  import opened LoggerFormat

  /** The positions of the format that make_format dereferences, as
      written, walking s whose first character is at position off: a '%'
      and the character after it, or a plain character. The source goes on
      past end() after a trailing '%'; the walk stops there. */
  function Reads(s: string, off: nat): seq<nat>
    decreases |s|
  {
    if s == [] then []
    else if s[0] == '%' then [off, off + 1] + (if |s| >= 2 then Reads(s[2..], off + 2) else [])
    else [off] + Reads(s[1..], off + 1)
  }

  /** Every position read is below bound. */
  predicate ReadsBelow(r: seq<nat>, bound: nat)
  {
    forall k | 0 <= k < |r| :: r[k] < bound
  }

  /** A format is complete exactly when make_format reads only inside it:
      the precondition of MakeFormat rules out just the formats the source
      reads past the end of. */
  lemma {:induction false} CompleteReadsInside(s: string, off: nat)
    ensures Complete(s) <==> ReadsBelow(Reads(s, off), off + |s|)
    decreases |s|
  {
    if s != [] {
      var w := if s[0] == '%' then 2 else 1;
      var head: seq<nat> := if s[0] == '%' then [off, off + 1] else [off];
      if |s| >= w {
        var rest := Reads(s[w..], off + w);
        CompleteReadsInside(s[w..], off + w);
        assert Reads(s, off) == head + rest;
        assert Complete(s) == Complete(s[w..]);
        if ReadsBelow(rest, off + |s|) {
          forall k | 0 <= k < |head + rest|
            ensures (head + rest)[k] < off + |s|
          {
            if k >= |head| {
              assert (head + rest)[k] == rest[k - |head|];
            }
          }
        }
        if ReadsBelow(head + rest, off + |s|) {
          forall k | 0 <= k < |rest|
            ensures rest[k] < off + |s|
          {
            assert (head + rest)[k + |head|] == rest[k];
          }
        }
      } else {
        assert Reads(s, off)[1] == off + 1;
      }
    }
  }

  /** "%m%": after the message directive the trailing '%' is read at
      position 2 and the character after it at position 3, one past the
      end of the three-character format. */
  lemma TrailingPercentReadsPastEnd()
    ensures Reads("%m%", 0) == [0, 1, 2, 3]
    ensures !Complete("%m%")
  {
    assert "%m%"[2..] == "%";
  }
}
