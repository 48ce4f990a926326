/** A connection that accepts a certain number of bytes before send(2) fails. */
module Network {
  import opened Bytes

  datatype Net = Net(sent: seq<byte>, connected: bool, accept: nat)

  /** The loops around send(2): everything, or as much as the network takes before it fails. */
  function Send(n: Net, data: seq<byte>): Net {
    if !n.connected then n
    else if |data| <= n.accept then n.(sent := n.sent + data, accept := n.accept - |data|)
    else Net(n.sent + data[..n.accept], false, 0)
  }

  lemma SendTwice(n: Net, a: seq<byte>, b: seq<byte>)
    ensures Send(Send(n, a), b) == Send(n, a + b)
  {
    if n.connected {
      if |a| <= n.accept {
        assert n.sent + a + b == n.sent + (a + b);
        var m := n.accept - |a|;
        if |b| > m {
          assert n.sent + a + b[..m] == n.sent + (a + b)[..n.accept];
        }
      } else {
        assert (a + b)[..n.accept] == a[..n.accept];
      }
    }
  }

  lemma SendFour(n: Net, a: seq<byte>, b: seq<byte>, c: seq<byte>, d: seq<byte>)
    ensures Send(Send(Send(Send(n, a), b), c), d) == Send(n, a + (b + (c + d)))
  {
    SendTwice(Send(Send(n, a), b), c, d);
    SendTwice(Send(n, a), b, c + d);
    SendTwice(n, a, b + (c + d));
  }

  lemma SendNothing(n: Net)
    ensures Send(n, []) == n
  {
    assert n.sent + [] == n.sent;
  }
}
