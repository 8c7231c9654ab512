/**
 Which address an exchange is counted against. Address parsing and network membership are
 library code and stay abstract; so is the split of the peer address into host and port.
 */
module ClientIp {
  import opened AppErr
  import opened GoStrings

  /** How addresses are read, and the networks of the configured proxies. */
  datatype Proxies<!Ip, !Network> = Proxies(parse: string -> Option<Ip>, contains: (Network, Ip) -> bool,
                                            trusted: seq<Network>)
  {
    predicate TrustsIp(ip: Ip) {
      exists i :: 0 <= i < |trusted| && contains(trusted[i], ip)
    }

    predicate Trusts(entry: string) {
      parse(entry).Some? && TrustsIp(parse(entry).value)
    }

    /** An entry of the header that names a client. */
    predicate Names(part: string) {
      TrimSpace(part) != "" && !Trusts(TrimSpace(part))
    }

    /** The right-most entry that names a client. */
    function Client(parts: seq<string>): Option<string> {
      if parts == [] then None
      else if Names(parts[|parts| - 1]) then Some(TrimSpace(parts[|parts| - 1]))
      else Client(parts[..|parts| - 1])
    }

    ghost predicate RightMost(parts: seq<string>, k: int) {
      0 <= k < |parts| && Names(parts[k]) && forall j :: k < j < |parts| ==> !Names(parts[j])
    }

    ghost predicate NoneNames(parts: seq<string>) {
      forall i :: 0 <= i < |parts| ==> !Names(parts[i])
    }

    lemma {:induction false} NoClient(parts: seq<string>)
      ensures Client(parts) == None <==> NoneNames(parts)
    {
      if parts != [] && !Names(parts[|parts| - 1]) {
        NoClient(parts[..|parts| - 1]);
        if NoneNames(parts[..|parts| - 1]) {
          NoneNamesMore(parts);
        } else {
          var i :| 0 <= i < |parts| - 1 && Names(parts[..|parts| - 1][i]);
          assert Names(parts[i]);
        }
      }
    }

    lemma {:induction false} ClientIsRightMost(parts: seq<string>) returns (k: int)
      requires Client(parts).Some?
      ensures RightMost(parts, k) && Client(parts).value == TrimSpace(parts[k])
    {
      k := |parts| - 1;
      if !Names(parts[k]) {
        k := ClientIsRightMost(parts[..k]);
      }
    }

    lemma NoneNamesMore(parts: seq<string>)
      requires parts != [] && NoneNames(parts[..|parts| - 1]) && !Names(parts[|parts| - 1])
      ensures NoneNames(parts)
    {
      forall i | 0 <= i < |parts| ensures !Names(parts[i]) {
        if i < |parts| - 1 {
          assert parts[i] == parts[..|parts| - 1][i];
        }
      }
    }

    lemma {:induction false} ClientOfConcat(left: seq<string>, right: seq<string>)
      ensures Client(left + right) == if Client(right).Some? then Client(right) else Client(left)
    {
      if right == [] {
        assert left + right == left;
      } else {
        assert (left + right)[..|left + right| - 1] == left + right[..|right| - 1];
        ClientOfConcat(left, right[..|right| - 1]);
      }
    }
  }

  method IsTrustedProxy<Ip, Network>(ip: Ip, p: Proxies<Ip, Network>) returns (trusted: bool)
    ensures trusted <==> p.TrustsIp(ip)
  {
    for i := 0 to |p.trusted|
      invariant forall j :: 0 <= j < i ==> !p.contains(p.trusted[j], ip)
    {
      if p.contains(p.trusted[i], ip) {
        return true;
      }
    }
    return false;
  }

  function PeerHost(remoteAddr: string, split: Option<string>): string {
    if split.Some? then split.value else remoteAddr
  }

  function Resolved<Ip, Network>(
    remoteAddr: string, split: Option<string>, forwarded: string, p: Proxies<Ip, Network>): string
  {
    var host := PeerHost(remoteAddr, split);
    var client := p.Client(Split(forwarded, ','));
    if p.Trusts(host) && client.Some? then client.value else host
  }

  /** Entry `part` of the header, without the space around it, is empty or a trusted address. */
  ghost predicate PassedOver<Ip, Network>(part: string, p: Proxies<Ip, Network>) {
    exists bare :: IsBare(part, bare) && (bare == "" || p.Trusts(bare))
  }

  /** An untrusted peer is itself the client. Behind a trusted one the client is the right-most
      entry that is not passed over, without the space around it, and the peer where no
      entry is. */
  ghost predicate IsClient<Ip, Network>(client: string, host: string, forwarded: string, p: Proxies<Ip, Network>) {
    var parts := Split(forwarded, ',');
    if p.Trusts(host) && exists i :: 0 <= i < |parts| && !PassedOver(parts[i], p) then
      exists k :: 0 <= k < |parts| && IsBare(parts[k], client) && !PassedOver(parts[k], p)
                  && forall j :: k < j < |parts| ==> PassedOver(parts[j], p)
    else
      client == host
  }

  lemma PassedOverIff<Ip, Network>(part: string, p: Proxies<Ip, Network>)
    ensures PassedOver(part, p) <==> !p.Names(part)
    ensures IsBare(part, TrimSpace(part))
  {
    TrimSpaceIff(part, TrimSpace(part));
    forall bare | IsBare(part, bare) ensures bare == TrimSpace(part) {
      TrimSpaceIff(part, bare);
    }
  }

  lemma ResolvedIsClient<Ip, Network>(
    remoteAddr: string, split: Option<string>, forwarded: string, p: Proxies<Ip, Network>)
    ensures IsClient(Resolved(remoteAddr, split, forwarded, p), PeerHost(remoteAddr, split), forwarded, p)
  {
    var parts := Split(forwarded, ',');
    forall i | 0 <= i < |parts| ensures PassedOver(parts[i], p) <==> !p.Names(parts[i]) {
      PassedOverIff(parts[i], p);
    }
    p.NoClient(parts);
    if p.Client(parts).Some? {
      var k := p.ClientIsRightMost(parts);
      PassedOverIff(parts[k], p);
    }
  }

  /** `split` is the host part of the peer address, if it has one. */
  method ClientIP<Ip, Network>(remoteAddr: string, split: Option<string>, forwarded: string, p: Proxies<Ip, Network>)
    returns (client: string)
    ensures client == Resolved(remoteAddr, split, forwarded, p)
    ensures IsClient(client, PeerHost(remoteAddr, split), forwarded, p)
  {
    ResolvedIsClient(remoteAddr, split, forwarded, p);
    var host := remoteAddr;
    if split.Some? {
      host := split.value;
    }
    var peer := p.parse(host);
    if peer == None {
      return host;
    }
    var trustedPeer := IsTrustedProxy(peer.value, p);
    if !trustedPeer {
      return host;
    }
    if forwarded == "" {
      assert p.Client([""]) == p.Client([""][..0]) == None;
      return host;
    }
    var parts := Split(forwarded, ',');
    var found := ScanFromRight(parts, p);
    return if found.Some? then found.value else host;
  }

  /** The descending loop: none when every entry was passed over. */
  method ScanFromRight<Ip, Network>(parts: seq<string>, p: Proxies<Ip, Network>) returns (found: Option<string>)
    ensures found == p.Client(parts)
  {
    assert parts[..|parts|] == parts;
    for i := |parts| downto 0
      invariant p.Client(parts) == p.Client(parts[..i])
    {
      assert parts[..i + 1][..i] == parts[..i];
      var entry := TrimSpace(parts[i]);
      if entry == "" {
        continue;
      }
      var ip := p.parse(entry);
      if ip.Some? {
        var trusted := IsTrustedProxy(ip.value, p);
        if trusted {
          continue;
        }
      }
      return Some(entry);
    }
    return None;
  }

  /** What a client writes in front of its proxy's own entries cannot change the result once one of
      those entries names a client; otherwise it alone decides. */
  lemma PrependedText<Ip, Network>(remoteAddr: string, split: Option<string>, text: string, forwarded: string,
                                   p: Proxies<Ip, Network>)
    ensures Resolved(remoteAddr, split, text + "," + forwarded, p)
         == if p.Client(Split(forwarded, ',')).Some? then Resolved(remoteAddr, split, forwarded, p)
            else Resolved(remoteAddr, split, text, p)
  {
    SplitConcat(text, forwarded, ',');
    p.ClientOfConcat(Split(text, ','), Split(forwarded, ','));
  }
}
