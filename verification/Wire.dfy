/** What net_send_all puts on the connection: a sequence of sends. */
module Wire {
  import opened Bytes

  /** The byte stream the peer receives. */
  function Joined(sends: seq<seq<byte>>): seq<byte>
  {
    if sends == [] then [] else Joined(sends[..|sends| - 1]) + sends[|sends| - 1]
  }

  lemma JoinedSnoc(sends: seq<seq<byte>>, last: seq<byte>)
    ensures Joined(sends + [last]) == Joined(sends) + last
  {
    assert (sends + [last])[..|sends|] == sends;
  }

  /** Every send fits the `cap`-byte buffer it was built in. */
  predicate Fits(sends: seq<seq<byte>>, cap: nat)
  {
    forall i :: 0 <= i < |sends| ==> |sends[i]| <= cap
  }

  /** Append a record to the output buffer, sending the buffer first if the record does not fit. */
  method Emit(sends: seq<seq<byte>>, out: seq<byte>, o: seq<byte>, cap: nat)
    returns (sends': seq<seq<byte>>, out': seq<byte>)
    requires Fits(sends, cap) && |out| <= cap && |o| <= cap
    ensures Fits(sends', cap) && |out'| <= cap
    ensures Joined(sends') + out' == Joined(sends) + out + o
  {
    hide Joined;
    if |out| + |o| > cap {
      JoinedSnoc(sends, out);
      sends', out' := sends + [out], o;
    } else {
      sends', out' := sends, out + o;
    }
  }

  /** Send what is left in the output buffer. */
  method Flush(sends: seq<seq<byte>>, out: seq<byte>, cap: nat) returns (sends': seq<seq<byte>>)
    requires Fits(sends, cap) && |out| <= cap
    ensures Fits(sends', cap)
    ensures Joined(sends') == Joined(sends) + out
  {
    hide Joined;
    sends' := sends;
    if out != [] {
      JoinedSnoc(sends, out);
      sends' := sends + [out];
    }
  }

  lemma JoinedOne(s: seq<byte>)
    ensures Joined([s]) == s
  {
    JoinedSnoc([], s);
    assert [] + [s] == [s];
  }
}
