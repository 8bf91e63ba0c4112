/** The peer registry: the ordered list of `{address, port}` records that `manage`
    scans, and appends to or splices, for every CONNECT and DISCONNECT. */
module Registry {
  import opened Formats

  /** A port as JavaScript holds it: `url.parse` yields the digits as a string, the
      socket reports the sender's port as a number, and strict equality never
      equates the two. */
  datatype Port = Num(n: int) | Digits(s: string)

  /** A peer record; two records match when both fields are strictly equal. */
  datatype Peer = Peer(address: string, port: Port)

  /** No two entries share (address, port). */
  predicate NoDuplicates(peers: seq<Peer>)
  {
    forall i, j :: 0 <= i < j < |peers| ==> peers[i] != peers[j]
  }

  /** Where the scan in `manage` stops: the first entry matching p, or -1 when none does. */
  function IndexOf(peers: seq<Peer>, p: Peer): (r: int)
    ensures -1 <= r < |peers|
    ensures r == -1 <==> p !in peers
    ensures 0 <= r ==> peers[r] == p && p !in peers[..r]
  {
    if peers == [] then -1
    else if peers[0] == p then 0
    else
      var k := IndexOf(peers[1..], p);
      if k == -1 then -1
      else
        assert peers[..k + 1] == [peers[0]] + peers[1..][..k];
        k + 1
  }

  /** The registry after `manage(peers, format, info)`, record by record: records before
      the first match are kept; the first match is kept for CONNECT and dropped for any
      other format; when no record matches, info ends up last whatever the format. */
  function Managed(peers: seq<Peer>, format: byte, info: Peer): (r: seq<Peer>)
    ensures |peers| - 1 <= |r| <= |peers| + 1
    ensures info !in peers ==> |r| == |peers| + 1
    ensures format == ByteOf(Connect) ==> |peers| <= |r| && info in r
    decreases |peers|
  {
    if peers == [] then [info]
    else if peers[0] == info then (if format == ByteOf(Connect) then peers else peers[1..])
    else [peers[0]] + Managed(peers[1..], format, info)
  }

  /** When no record matches, `manage` pushes info after the last record. */
  lemma {:induction false} ManagedAbsent(peers: seq<Peer>, format: byte, info: Peer)
    requires info !in peers
    ensures Managed(peers, format, info) == peers + [info]
    decreases |peers|
  {
    if peers != [] {
      ManagedAbsent(peers[1..], format, info);
      assert peers == [peers[0]] + peers[1..];
    }
  }

  /** Records in front that do not match info are kept, and `manage` carries on behind them. */
  lemma {:induction false} ManagedPrefix(front: seq<Peer>, rest: seq<Peer>, format: byte, info: Peer)
    requires info !in front
    ensures Managed(front + rest, format, info) == front + Managed(rest, format, info)
    decreases |front|
  {
    if front != [] {
      var peers, head, tail := front + rest, front[0], front[1..];
      assert peers[0] == head != info && peers[1..] == tail + rest;
      assert Managed(peers, format, info) == [head] + Managed(tail + rest, format, info);
      ManagedPrefix(tail, rest, format, info);
      assert front == [head] + tail;
      assert front + Managed(rest, format, info) == [head] + (tail + Managed(rest, format, info));
    } else {
      assert front + rest == rest;
    }
  }

  /** When record i is the first match, `manage` keeps everything before it, and keeps it
      (CONNECT) or splices it out (any other format). */
  lemma ManagedAt(peers: seq<Peer>, format: byte, info: Peer, i: nat)
    requires i < |peers| && peers[i] == info && info !in peers[..i]
    ensures Managed(peers, format, info) ==
      peers[..i] + (if format == ByteOf(Connect) then peers[i..] else peers[i + 1..])
  {
    assert peers == peers[..i] + peers[i..];
    ManagedPrefix(peers[..i], peers[i..], format, info);
    assert peers[i..][0] == info && peers[i..][1..] == peers[i + 1..];
  }

  /** The scan-then-act reading of `manage`: stop at the first match, then keep it for
      CONNECT or splice it out otherwise; push info when the scan found nothing. */
  lemma ManagedByScan(peers: seq<Peer>, format: byte, info: Peer)
    ensures var i := IndexOf(peers, info);
      Managed(peers, format, info) ==
        if i < 0 then peers + [info]
        else if format == ByteOf(Connect) then peers
        else peers[..i] + peers[i + 1..]
  {
    var i := IndexOf(peers, info);
    if i < 0 {
      ManagedAbsent(peers, format, info);
    } else {
      ManagedAt(peers, format, info, i);
      assert peers[..i] + peers[i..] == peers;
    }
  }

  /** The registry after `manage` has been applied with one format to each endpoint in turn. */
  function ManagedAll(peers: seq<Peer>, format: byte, eps: seq<Peer>): (r: seq<Peer>)
    ensures |r| <= |peers| + |eps|
    ensures format == ByteOf(Connect) ==> |peers| <= |r|
    ensures format == ByteOf(Connect) && eps != [] ==> eps[|eps| - 1] in r
    decreases |eps|
  {
    if eps == [] then peers
    else Managed(ManagedAll(peers, format, eps[..|eps| - 1]), format, eps[|eps| - 1])
  }

  /** One more endpoint is one more `manage` on the result so far. */
  lemma ManagedAllStep(peers: seq<Peer>, format: byte, eps: seq<Peer>, i: nat)
    requires i < |eps|
    ensures ManagedAll(peers, format, eps[..i + 1]) == Managed(ManagedAll(peers, format, eps[..i]), format, eps[i])
  {
    assert eps[..i + 1][..i] == eps[..i];
  }

  /** CONNECT appends an absent peer as the last entry and leaves the list alone when
      the peer is already there. */
  lemma ManageConnect(peers: seq<Peer>, info: Peer)
    ensures info !in peers ==> Managed(peers, ByteOf(Connect), info) == peers + [info]
    ensures info in peers ==> Managed(peers, ByteOf(Connect), info) == peers
  {
    ManagedByScan(peers, ByteOf(Connect), info);
  }

  /** CONNECT applied twice is CONNECT applied once. */
  lemma ConnectIdempotent(peers: seq<Peer>, info: Peer)
    ensures var once := Managed(peers, ByteOf(Connect), info);
      Managed(once, ByteOf(Connect), info) == once
  {
    var once := Managed(peers, ByteOf(Connect), info);
    ManageConnect(peers, info);
    ManageConnect(once, info);
    assert info in once by {
      if info !in peers {
        assert once[|peers|] == info;
      }
    }
  }

  /** DISCONNECT of a present peer removes exactly its first entry and keeps every
      other entry in its relative order. */
  lemma ManageDisconnectPresent(peers: seq<Peer>, info: Peer)
    requires info in peers
    ensures exists k :: (0 <= k < |peers| && peers[k] == info && info !in peers[..k]
      && Managed(peers, ByteOf(Disconnect), info) == peers[..k] + peers[k + 1..])
    ensures multiset(Managed(peers, ByteOf(Disconnect), info)) == multiset(peers) - multiset{info}
  {
    var k := IndexOf(peers, info);
    ManagedAt(peers, ByteOf(Disconnect), info, k);
    var r := peers[..k] + peers[k + 1..];
    assert Managed(peers, ByteOf(Disconnect), info) == r;
    SpliceMultiset(peers, k);
  }

  /** Splicing out record k removes exactly one occurrence of it. */
  lemma SpliceMultiset(peers: seq<Peer>, k: nat)
    requires k < |peers|
    ensures multiset(peers[..k] + peers[k + 1..]) == multiset(peers) - multiset{peers[k]}
  {
    assert peers == peers[..k] + [peers[k]] + peers[k + 1..];
  }

  /** DISCONNECT of an absent peer appends it: the `push` after the scan does not look
      at the format. */
  lemma ManageDisconnectAbsent(peers: seq<Peer>, info: Peer)
    requires info !in peers
    ensures Managed(peers, ByteOf(Disconnect), info) == peers + [info]
    ensures info in Managed(peers, ByteOf(Disconnect), info)
  {
    ManagedByScan(peers, ByteOf(Disconnect), info);
    assert (peers + [info])[|peers|] == info;
  }

  /** `manage` never touches an entry that does not match info. */
  lemma ManageOthersUnchanged(peers: seq<Peer>, format: byte, info: Peer, q: Peer)
    requires q != info
    ensures q in Managed(peers, format, info) <==> q in peers
  {
    ManagedByScan(peers, format, info);
    var i := IndexOf(peers, info);
    if 0 <= i && format != ByteOf(Connect) {
      assert peers == peers[..i] + [info] + peers[i + 1..];
    }
  }

  /** Splicing out entry i shifts every later entry down by one. */
  lemma SpliceAt(peers: seq<Peer>, i: nat, a: nat)
    requires i < |peers| && a < |peers| - 1
    ensures (peers[..i] + peers[i + 1..])[a] == peers[if a < i then a else a + 1]
  {
  }

  /** `manage` keeps the registry free of duplicates, whatever the format. */
  lemma ManagePreservesNoDuplicates(peers: seq<Peer>, format: byte, info: Peer)
    requires NoDuplicates(peers)
    ensures NoDuplicates(Managed(peers, format, info))
  {
    var r := Managed(peers, format, info);
    ManagedByScan(peers, format, info);
    var i := IndexOf(peers, info);
    if i < 0 {
      forall a, b | 0 <= a < b < |r| ensures r[a] != r[b] {
        if b == |peers| {
          assert r[a] == peers[a];
        }
      }
    } else if format != ByteOf(Connect) {
      forall a, b | 0 <= a < b < |r| ensures r[a] != r[b] {
        SpliceAt(peers, i, a);
        SpliceAt(peers, i, b);
      }
    }
  }

  /** On a duplicate-free registry, DISCONNECT of a present peer leaves it absent. */
  lemma DisconnectRemoves(peers: seq<Peer>, info: Peer)
    requires NoDuplicates(peers) && info in peers
    ensures info !in Managed(peers, ByteOf(Disconnect), info)
  {
    ManagedByScan(peers, ByteOf(Disconnect), info);
    var k := IndexOf(peers, info);
    var r := Managed(peers, ByteOf(Disconnect), info);
    forall a | 0 <= a < |r| ensures r[a] != info {
      SpliceAt(peers, k, a);
    }
  }

  /** Folding `manage` over any endpoints keeps the registry free of duplicates. */
  lemma {:induction false} ManagedAllNoDuplicates(peers: seq<Peer>, format: byte, eps: seq<Peer>)
    requires NoDuplicates(peers)
    ensures NoDuplicates(ManagedAll(peers, format, eps))
    decreases |eps|
  {
    if eps != [] {
      ManagedAllNoDuplicates(peers, format, eps[..|eps| - 1]);
      ManagePreservesNoDuplicates(ManagedAll(peers, format, eps[..|eps| - 1]), format, eps[|eps| - 1]);
    }
  }

  /** Connecting to several endpoints keeps the old registry as a prefix and ends with
      exactly the old peers and the new endpoints. */
  lemma {:induction false} ConnectAllContents(peers: seq<Peer>, eps: seq<Peer>)
    ensures var r := ManagedAll(peers, ByteOf(Connect), eps);
      && peers <= r
      && forall q :: q in r <==> q in peers || q in eps
    decreases |eps|
  {
    if eps != [] {
      var init, last := eps[..|eps| - 1], eps[|eps| - 1];
      ConnectAllContents(peers, init);
      var before := ManagedAll(peers, ByteOf(Connect), init);
      ManageConnect(before, last);
      assert eps == init + [last];
      var r := ManagedAll(peers, ByteOf(Connect), eps);
      assert last in r by {
        if last !in before {
          assert r[|before|] == last;
        }
      }
    }
  }
}
