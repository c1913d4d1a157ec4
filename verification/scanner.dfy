/** `scan_network` and `get_arp_ips` (phone_agent/adb/scanner.py): find the
    hosts of the local subnet whose ADB port accepts a connection, trying the
    ARP cache first and sweeping the whole subnet only when that finds none.

    The socket and process I/O is replaced by inputs: the address that
    `get_local_ip` resolves (`"127.0.0.1"` whenever resolution fails), the
    dotted-quad strings the regular expression extracts from `arp -a` (or the
    failure of that command), and the port probe `check_port` as a predicate.
    The thread pools only change timing: results are collected in submission
    order, which is what the model computes. */
module Scanner {
  import opened Text
  import opened Seqs

  /** What `get_local_ip` returns when it cannot resolve an address. */
  const Loopback: string := "127.0.0.1"

  /** `range(1, 255)`: the host numbers of the slow sweep. */
  const FirstHost: nat := 1
  const LastHost: nat := 254

  /** The output of `arp -a` after regular-expression extraction, or a
      failure of the command (any exception in the `try` block). */
  datatype ArpQuery = ArpFailed | ArpListed(found: seq<string>)

  /** What one scan did: the addresses probed on the fast path, those probed
      on the slow path, and the addresses returned. */
  datatype ScanReport = ScanReport(fastProbed: seq<string>, slowProbed: seq<string>, found: seq<string>)

  /** `".".join(local_ip.split(".")[:-1])`: the local address without its last
      dot-separated component, or `""` when it has no dot. */
  function SubnetPrefix(ip: string): (prefix: string)
    ensures BeforeLast(ip, '.', prefix)
  {
    JoinAllButLast(ip, '.');
    JoinWith(DropLast(SplitOn(ip, '.')), '.')
  }

  /** The ARP filter: a plain string-prefix test against the subnet prefix,
      not a test of /24 membership, and not the local address. */
  predicate ArpCandidate(localIp: string, ip: string) {
    StartsWith(ip, SubnetPrefix(localIp)) && ip != localIp
  }

  /** `get_arp_ips`: the extracted addresses that pass the filter, each once
      (the source collects them into a set). A failing ARP command yields no
      candidates, never an error. */
  function ArpIps(query: ArpQuery, localIp: string): (ips: seq<string>)
    ensures NoDup(ips)
    ensures forall ip :: ip in ips <==> query.ArpListed? && ip in query.found && ArpCandidate(localIp, ip)
  {
    match query
    case ArpFailed => []
    case ArpListed(found) => DedupFilter(ip => ArpCandidate(localIp, ip), found)
  }

  /** `f"{subnet}.{i}"`. */
  function HostAddress(prefix: string, i: nat): string {
    prefix + "." + Decimal(i)
  }

  /** Distinct host numbers give distinct addresses. */
  lemma HostAddressInjective(prefix: string, i: nat, j: nat)
    requires HostAddress(prefix, i) == HostAddress(prefix, j)
    ensures i == j
  {
    var n := |prefix| + 1;
    assert Decimal(i) == HostAddress(prefix, i)[n..];
    assert Decimal(j) == HostAddress(prefix, j)[n..];
    DecimalInjective(i, j);
  }

  /** `[f"{subnet}.{i}" for i in range(lo, 255)]`. */
  function HostsFrom(prefix: string, lo: nat): (hosts: seq<string>)
    requires FirstHost <= lo <= LastHost + 1
    ensures |hosts| == LastHost + 1 - lo
    ensures forall k :: 0 <= k < |hosts| ==> hosts[k] == HostAddress(prefix, lo + k)
    decreases LastHost + 1 - lo
  {
    if lo == LastHost + 1 then [] else [HostAddress(prefix, lo)] + HostsFrom(prefix, lo + 1)
  }

  /** Distinct host numbers give distinct sweep entries. */
  lemma HostsDistinct(prefix: string, lo: nat)
    requires FirstHost <= lo <= LastHost + 1
    ensures NoDup(HostsFrom(prefix, lo))
  {
    var hosts := HostsFrom(prefix, lo);
    forall i, j | 0 <= i < j < |hosts|
      ensures hosts[i] != hosts[j]
    {
      if hosts[i] == hosts[j] {
        HostAddressInjective(prefix, lo + i, lo + j);
      }
    }
  }

  /** The full sweep `prefix.1`, ..., `prefix.254`, in ascending order, each once. */
  function SubnetHosts(prefix: string): (hosts: seq<string>)
    ensures |hosts| == LastHost
    ensures forall k :: 0 <= k < LastHost ==> hosts[k] == HostAddress(prefix, k + 1)
    ensures NoDup(hosts)
  {
    HostsDistinct(prefix, FirstHost);
    HostsFrom(prefix, FirstHost)
  }

  /** An address is in the sweep exactly when it is `prefix.i` for some host number `i`. */
  lemma InSubnetHosts(prefix: string, ip: string)
    ensures ip in SubnetHosts(prefix) <==> exists i :: FirstHost <= i <= LastHost && ip == HostAddress(prefix, i)
  {
    var hosts := SubnetHosts(prefix);
    if ip in hosts {
      var k :| 0 <= k < |hosts| && hosts[k] == ip;
      assert ip == HostAddress(prefix, k + 1);
    }
    if exists i :: FirstHost <= i <= LastHost && ip == HostAddress(prefix, i) {
      var i :| FirstHost <= i <= LastHost && ip == HostAddress(prefix, i);
      assert hosts[i - 1] == ip;
    }
  }

  /** The slow-path list: the sweep without the ARP candidates already tried
      and without the local address. */
  function SlowCandidates(prefix: string, arpIps: seq<string>, localIp: string): (ips: seq<string>)
    ensures |ips| <= LastHost
    ensures NoDup(ips)
    ensures Subseq(ips, SubnetHosts(prefix))
    ensures forall ip :: ip in ips <==> ip in SubnetHosts(prefix) && ip !in arpIps && ip != localIp
  {
    Filter(ip => ip !in arpIps && ip != localIp, SubnetHosts(prefix))
  }

  /** `scan_network`, with the probe `check_port(ip, port, timeout)` as
      `probe`: the loopback short-circuit, then the ARP fast path, then the
      sweep when the fast path found nothing. */
  function ScanNetwork(localIp: string, arp: ArpQuery, probe: string -> bool): (r: ScanReport)
    ensures localIp == Loopback ==> r == ScanReport([], [], [])
    ensures forall ip :: ip in r.found <==> (ip in r.fastProbed || ip in r.slowProbed) && probe(ip)
  {
    if localIp == Loopback then ScanReport([], [], [])
    else
      var arpIps := ArpIps(arp, localIp);
      var fastFound := Filter(probe, arpIps);
      if |fastFound| > 0 then ScanReport(arpIps, [], fastFound)
      else
        var slow := SlowCandidates(SubnetPrefix(localIp), arpIps, localIp);
        ScanReport(arpIps, slow, Filter(probe, slow))
  }

  /** The fast path probes exactly the ARP candidates, and a hit there ends
      the scan: no address of the sweep is probed. */
  lemma FastPathPrecedence(localIp: string, arp: ArpQuery, probe: string -> bool)
    requires localIp != Loopback
    ensures var r := ScanNetwork(localIp, arp, probe);
            && r.fastProbed == ArpIps(arp, localIp)
            && ((exists ip :: ip in r.fastProbed && probe(ip)) ==> r.slowProbed == [] && r.found == Filter(probe, r.fastProbed))
  {
    var r := ScanNetwork(localIp, arp, probe);
    if exists ip :: ip in r.fastProbed && probe(ip) {
      var ip :| ip in r.fastProbed && probe(ip);
      assert ip in Filter(probe, r.fastProbed);
    }
  }

  /** When no ARP candidate answers, the sweep probes, in ascending order,
      every `prefix.i` (1 <= i <= 254) that is neither an ARP candidate nor
      the local address, and each at most once. */
  lemma SlowPathCoverage(localIp: string, arp: ArpQuery, probe: string -> bool)
    requires localIp != Loopback
    requires forall ip :: ip in ArpIps(arp, localIp) ==> !probe(ip)
    ensures var r := ScanNetwork(localIp, arp, probe);
            var prefix := SubnetPrefix(localIp);
            && (forall ip :: ip in r.slowProbed <==>
                  (exists i :: FirstHost <= i <= LastHost && ip == HostAddress(prefix, i))
                  && ip !in r.fastProbed && ip != localIp)
            && Subseq(r.slowProbed, SubnetHosts(prefix))
            && NoDup(r.slowProbed) && |r.slowProbed| <= LastHost
  {
    var arpIps := ArpIps(arp, localIp);
    FilterAllOrNothing(probe, arpIps);
    forall ip
      ensures ip in SubnetHosts(SubnetPrefix(localIp)) <==>
              exists i :: FirstHost <= i <= LastHost && ip == HostAddress(SubnetPrefix(localIp), i)
    {
      InSubnetHosts(SubnetPrefix(localIp), ip);
    }
  }

  /** The result lists the accepted addresses in the order they were probed,
      each once, and never the local address. */
  lemma ScanResultShape(localIp: string, arp: ArpQuery, probe: string -> bool)
    ensures var r := ScanNetwork(localIp, arp, probe);
            Subseq(r.found, r.fastProbed + r.slowProbed) && NoDup(r.found) && localIp !in r.found
  {
    var r := ScanNetwork(localIp, arp, probe);
    if localIp != Loopback {
      if r.slowProbed == [] {
        assert r.fastProbed + r.slowProbed == r.fastProbed;
      } else {
        SubseqAppendLeft(r.found, r.fastProbed, r.slowProbed);
      }
    }
  }

  /** Every address the scan returns starts with the subnet prefix. */
  lemma FoundShareSubnetPrefix(localIp: string, arp: ArpQuery, probe: string -> bool)
    ensures forall ip :: ip in ScanNetwork(localIp, arp, probe).found ==> StartsWith(ip, SubnetPrefix(localIp))
  {
    var prefix := SubnetPrefix(localIp);
    forall i: nat
      ensures StartsWith(HostAddress(prefix, i), prefix)
    {
      assert HostAddress(prefix, i)[..|prefix|] == prefix;
    }
    forall ip | ip in SubnetHosts(prefix)
      ensures StartsWith(ip, prefix)
    {
      InSubnetHosts(prefix, ip);
    }
  }

  /** The sweep finds exactly the one listening host when the ARP cache gave
      nothing and the probe accepts only that host of the subnet. */
  lemma SlowPathFindsSingleHost(localIp: string, arp: ArpQuery, probe: string -> bool, i: nat)
    requires localIp != Loopback
    requires ArpIps(arp, localIp) == []
    requires FirstHost <= i <= LastHost
    requires HostAddress(SubnetPrefix(localIp), i) != localIp
    requires forall ip :: probe(ip) <==> ip == HostAddress(SubnetPrefix(localIp), i)
    ensures ScanNetwork(localIp, arp, probe).found == [HostAddress(SubnetPrefix(localIp), i)]
  {
    var x := HostAddress(SubnetPrefix(localIp), i);
    var r := ScanNetwork(localIp, arp, probe);
    InSubnetHosts(SubnetPrefix(localIp), x);
    assert x in r.slowProbed;
    SingletonOfNoDup(r.found, x);
  }

  /** The subnet prefix of `p.h`, where the last component `h` has no dot, is `p`. */
  lemma SubnetPrefixOf(p: string, h: string)
    requires '.' !in h
    ensures SubnetPrefix(p + "." + h) == p
  {
    var ip := p + "." + h;
    assert ip[|p|] == '.' && ip[|p| + 1..] == h;
    BeforeLastUnique(ip, '.', SubnetPrefix(ip), |p|);
    assert ip[..|p|] == p;
  }

  /** With local address `p.h`, any listed address that starts with `p`
      and is not the local address is a candidate, whatever follows `p`. */
  lemma ArpAdmitsAnyContinuation(p: string, h: string, x: string)
    requires '.' !in h
    requires p + x != p + "." + h
    ensures ArpIps(ArpListed([p + x]), p + "." + h) == [p + x]
  {
    SubnetPrefixOf(p, h);
    assert (p + x)[..|p|] == p;
    assert ArpCandidate(p + "." + h, p + x);
    assert [p + x][1..] == [];
  }

  const ExampleNet: string := "192.168.1"
  const ExampleHost: string := "5"
  const ExampleTail: string := "0.7"

  /** The ARP filter is a raw prefix test, not /24 membership: with local
      address `192.168.1.5` the prefix is `192.168.1`, which `192.168.10.7`
      also starts with, so that address of another network is a candidate. */
  lemma ArpFilterIsStringPrefix()
    ensures ExampleNet + "." + ExampleHost == "192.168.1.5"
    ensures ExampleNet + ExampleTail == "192.168.10.7"
    ensures SubnetPrefix(ExampleNet + "." + ExampleHost) == ExampleNet
    ensures ArpIps(ArpListed([ExampleNet + ExampleTail]), ExampleNet + "." + ExampleHost) == [ExampleNet + ExampleTail]
  {
    SubnetPrefixOf(ExampleNet, ExampleHost);
    assert |ExampleNet + ExampleTail| != |ExampleNet + "." + ExampleHost|;
    ArpAdmitsAnyContinuation(ExampleNet, ExampleHost, ExampleTail);
  }
}
