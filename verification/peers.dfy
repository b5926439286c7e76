/**
  The Peer record shared by the data readers, the UI and the networking layer, and the ordering
  its operator< defines: by address string first, then by port, with the name left out.
*/
module Peers {
  import opened Text

  datatype Peer = Peer(ipv4: string, port: int16, name: string)

  /** Peer(name, iPv4, port): the three fields as given. */
  function MakePeer(name: string, ipv4: string, port: int16): (p: Peer)
    ensures p.name == name && p.ipv4 == ipv4 && p.port == port
  {
    Peer(ipv4, port, name)
  }

  /**
    std::string's operator<: lexicographic, a proper prefix coming first. No string is below
    itself.
  */
  predicate StrLess(a: string, b: string)
    ensures StrLess(a, b) ==> a != b
    ensures |a| < |b| && a == b[..|a|] ==> StrLess(a, b)
  {
    if |a| == 0 then |b| > 0
    else if |b| == 0 then false
    else if a[0] == b[0] then StrLess(a[1..], b[1..])
    else a[0] < b[0]
  }

  lemma {:induction false} StrLessIrreflexive(a: string)
    ensures !StrLess(a, a)
  {
    if |a| > 0 {
      StrLessIrreflexive(a[1..]);
    }
  }

  lemma {:induction false} StrLessTransitive(a: string, b: string, c: string)
    requires StrLess(a, b) && StrLess(b, c)
    ensures StrLess(a, c)
  {
    if |a| > 0 && |b| > 0 && |c| > 0 && a[0] == b[0] && b[0] == c[0] {
      StrLessTransitive(a[1..], b[1..], c[1..]);
    }
  }

  /** Two strings are equal or one is below the other, and only one of these holds. */
  lemma {:induction false} StrLessTrichotomy(a: string, b: string)
    ensures StrLess(a, b) || a == b || StrLess(b, a)
    ensures !(StrLess(a, b) && StrLess(b, a))
  {
    if |a| > 0 && |b| > 0 && a[0] == b[0] {
      StrLessTrichotomy(a[1..], b[1..]);
      if a[1..] == b[1..] {
        assert a == [a[0]] + a[1..] && b == [b[0]] + b[1..];
      }
    }
  }

  /** Peer::operator<: a < b exactly when (address, port) of a is lexicographically below that of b. */
  predicate Less(a: Peer, b: Peer)
    ensures Less(a, b) <==> StrLess(a.ipv4, b.ipv4) || (a.ipv4 == b.ipv4 && a.port < b.port)
  {
    if a.ipv4 == b.ipv4 then a.port < b.port else StrLess(a.ipv4, b.ipv4)
  }

  /** The name takes no part: peers that differ only in name are ordered alike. */
  lemma LessIgnoresName(a: Peer, b: Peer, x: string, y: string)
    ensures Less(a, b) == Less(a.(name := x), b.(name := y))
    ensures !Less(a, a.(name := x)) && !Less(a.(name := x), a)
  {
  }

  lemma LessIrreflexive(a: Peer)
    ensures !Less(a, a)
  {
  }

  lemma LessAsymmetric(a: Peer, b: Peer)
    ensures Less(a, b) ==> !Less(b, a)
  {
    if a.ipv4 != b.ipv4 {
      StrLessTrichotomy(a.ipv4, b.ipv4);
    }
  }

  lemma LessTransitive(a: Peer, b: Peer, c: Peer)
    requires Less(a, b) && Less(b, c)
    ensures Less(a, c)
  {
    if a.ipv4 == b.ipv4 && b.ipv4 != c.ipv4 {
    } else if a.ipv4 != b.ipv4 && b.ipv4 == c.ipv4 {
    } else if a.ipv4 != b.ipv4 && b.ipv4 != c.ipv4 {
      StrLessTransitive(a.ipv4, b.ipv4, c.ipv4);
      if a.ipv4 == c.ipv4 {
        StrLessTrichotomy(a.ipv4, b.ipv4);
      }
    }
  }

  /**
    Exactly one of a < b, b < a, or equal address and port holds, so peers with the same address
    and port are equivalent keys of a std::set or std::map.
  */
  lemma LessTrichotomy(a: Peer, b: Peer)
    ensures Less(a, b) || Less(b, a) || (a.ipv4 == b.ipv4 && a.port == b.port)
    ensures (a.ipv4 == b.ipv4 && a.port == b.port) ==> !Less(a, b) && !Less(b, a)
    ensures !(Less(a, b) && Less(b, a))
  {
    StrLessTrichotomy(a.ipv4, b.ipv4);
  }

  /** Incomparability (neither is below the other) is transitive: the order is a strict weak order. */
  lemma IncomparableTransitive(a: Peer, b: Peer, c: Peer)
    requires !Less(a, b) && !Less(b, a) && !Less(b, c) && !Less(c, b)
    ensures !Less(a, c) && !Less(c, a)
  {
    LessTrichotomy(a, b);
    LessTrichotomy(b, c);
  }
}
