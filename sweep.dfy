/**
  * The sweep coordinator: the /24 prefix of the gateway address, the candidate
  * addresses `prefix1` … `prefix254`, the scan result (router first, this
  * machine second, then every remainder address that answered), and the
  * latency history that the scanner keeps from one scan to the next.
  *
  * Every answer of the network and of the operating system about an address
  * is an input, a `Host` per address; the concurrent per-address tasks of the
  * scanner are one sequential loop, in increasing address order.
  */
module Sweep {
  import opened Outcomes
  import opened Text
  import opened Numbers
  import Latency
  import opened Identity

  const RouterName := "Router"
  const LocalName := "This Device"
  const FirstHost := 1
  const LastHost := 254
  const NoRouterNotice := "Router IP Address could not be found."
  const NoSubnetNotice := "Could not determine subnet."

  /** One row of the scan result, every field as the text the scanner displays. */
  datatype Device = Device(ipAddress: string, hostName: string, latency: string, macAddress: string)

  /**
    * What the network and the operating system answer about one address: the
    * liveness probe, the five latency probes, the reverse name lookup, and the
    * output (or the failure) of `nbtstat -A` and of `arp -a`.
    */
  datatype Host = Host(online: bool, probes: Latency.Probes, reverseLookup: Captured, nbtstat: Captured, arp: Captured)

  /** A scan either fails before it starts, with a notice for the user, or yields its devices. */
  datatype ScanOutcome = Scanned(devices: seq<Device>) | NotScanned(notice: string)

  predicate Distinct(s: seq<string>)
  {
    forall j, k :: 0 <= j < k < |s| ==> s[j] != s[k]
  }

  // ---------------------------------------------------------------- subnet

  /** The first three dot-separated parts of the gateway address, each followed by a dot. */
  function GetSubnet(routerIP: string): (r: Option<string>)
    ensures r.Some? <==> CountChar(routerIP, '.') == 3
  {
    SplitOnChar(routerIP, '.');
    var ipParts := Split(routerIP, ".");
    if |ipParts| == 4 then Some(ipParts[0] + "." + ipParts[1] + "." + ipParts[2] + ".") else None
  }

  /**
    * A prefix is derived exactly when the address holds three dots, and then it
    * is the address up to and including its third dot.
    */
  lemma GetSubnetSpec(routerIP: string)
    ensures GetSubnet(routerIP).Some? <==> CountChar(routerIP, '.') == 3
    ensures GetSubnet(routerIP).Some? ==>
      var prefix := GetSubnet(routerIP).value;
      prefix <= routerIP && '.' !in routerIP[|prefix|..] &&
      CountChar(prefix, '.') == 3 && prefix[|prefix| - 1] == '.'
  {
    var parts := Split(routerIP, ".");
    SplitOnChar(routerIP, '.');
    if |parts| == 4 {
      JoinSplit(routerIP, ".");
      JoinFour(parts);
      var prefix := parts[0] + "." + parts[1] + "." + parts[2] + ".";
      assert routerIP == prefix + parts[3];
      assert routerIP[|prefix|..] == parts[3];
      assert '.' !in parts[0] && '.' !in parts[1] && '.' !in parts[2] && '.' !in parts[3];
      DottedCount(parts[0], parts[1], parts[2]);
    }
  }

  lemma JoinFour(parts: seq<string>)
    requires |parts| == 4
    ensures Join(parts, ".") == parts[0] + "." + parts[1] + "." + parts[2] + "." + parts[3]
  {
    assert parts[1..][1..] == parts[2..] && parts[2..][1..] == parts[3..];
    assert Join(parts[3..], ".") == parts[3];
    assert Join(parts[2..], ".") == parts[2] + "." + parts[3];
    assert Join(parts[1..], ".") == parts[1] + "." + (parts[2] + "." + parts[3]);
  }

  lemma DottedCount(a: string, b: string, c: string)
    requires '.' !in a && '.' !in b && '.' !in c
    ensures CountChar(a + "." + b + "." + c + ".", '.') == 3
  {
    CountCharAppend(a, ".", '.');
    CountCharAppend(a + ".", b, '.');
    CountCharAppend(a + "." + b, ".", '.');
    CountCharAppend(a + "." + b + ".", c, '.');
    CountCharAppend(a + "." + b + "." + c, ".", '.');
  }

  /** For a dotted quad `a.b.c.d` the prefix is `a.b.c.`, whatever the parts hold. */
  lemma SubnetOfDottedQuad(a: string, b: string, c: string, d: string)
    requires '.' !in a && '.' !in b && '.' !in c && '.' !in d
    ensures GetSubnet(a + "." + b + "." + c + "." + d) == Some(a + "." + b + "." + c + ".")
  {
    SplitDottedQuad(a, b, c, d);
  }

  lemma SplitDottedQuad(a: string, b: string, c: string, d: string)
    requires '.' !in a && '.' !in b && '.' !in c && '.' !in d
    ensures Split(a + "." + b + "." + c + "." + d, ".") == [a, b, c, d]
  {
    var cd := c + "." + d;
    var bcd := b + "." + cd;
    assert Split(cd, ".") == [c, d] by {
      SplitWithout(d, '.');
      SplitDotFirst(c, d, [d]);
    }
    assert Split(bcd, ".") == [b, c, d] by {
      SplitDotFirst(b, cd, [c, d]);
    }
    assert a + "." + b + "." + c + "." + d == a + "." + bcd;
    SplitDotFirst(a, bcd, [b, c, d]);
  }

  /** A dot-free part, a dot and a rest split into the part followed by the rest's pieces. */
  lemma SplitDotFirst(a: string, rest: string, parts: seq<string>)
    requires '.' !in a && Split(rest, ".") == parts
    ensures Split(a + "." + rest, ".") == [a] + parts
  {
    assert a + "." + rest == a + ['.'] + rest;
    SplitAround(a, rest, '.');
    SplitWithout(a, '.');
  }


  // ---------------------------------------------------------------- candidates

  /** `ip` is the candidate with host number `i` under `subnet`. */
  ghost predicate IsHostAddress(subnet: string, ip: string, i: int)
  {
    FirstHost <= i && ip == subnet + NatToString(i)
  }

  /** `ip` is the candidate with some host number below `n` under `subnet`. */
  ghost predicate IsHostAddressBelow(subnet: string, ip: string, n: int)
  {
    exists i :: i < n && IsHostAddress(subnet, ip, i)
  }

  /**
    * The addresses `subnet + i` for the host numbers `i` from 1 below `n`, in
    * increasing order, without the router and the local address.
    */
  function Candidates(subnet: string, routerIP: string, localIP: string, n: nat): (r: seq<string>)
    ensures n >= FirstHost ==> |r| <= n - FirstHost
    ensures forall k :: 0 <= k < |r| ==> r[k] != routerIP && r[k] != localIP
  {
    if n <= FirstHost then []
    else
      var ip := subnet + NatToString(n - 1);
      Candidates(subnet, routerIP, localIP, n - 1) + (if ip == routerIP || ip == localIP then [] else [ip])
  }

  lemma PrefixCancel(prefix: string, x: string, y: string)
    requires prefix + x == prefix + y
    ensures x == y
  {
    assert (prefix + x)[|prefix|..] == x && (prefix + y)[|prefix|..] == y;
  }

  /**
    * The candidates below `n` are the addresses `subnet + i`, `1 <= i < n`, other
    * than the router and the local address, each of them once.
    */
  lemma CandidatesSpec(subnet: string, routerIP: string, localIP: string, n: nat)
    ensures var c := Candidates(subnet, routerIP, localIP, n);
      && (n >= FirstHost ==> |c| <= n - FirstHost)
      && (forall k :: 0 <= k < |c| ==> c[k] != routerIP && c[k] != localIP)
      && (forall k :: 0 <= k < |c| ==> IsHostAddressBelow(subnet, c[k], n))
      && (forall i :: FirstHost <= i < n && subnet + NatToString(i) != routerIP && subnet + NatToString(i) != localIP ==>
            subnet + NatToString(i) in c)
      && Distinct(c)
  {
    CandidatesSound(subnet, routerIP, localIP, n);
    CandidatesComplete(subnet, routerIP, localIP, n);
    CandidatesDistinct(subnet, routerIP, localIP, n);
  }

  /** Each candidate is a host address below `n` other than the two primary addresses; there are at most `n - 1`. */
  lemma {:induction false} CandidatesSound(subnet: string, routerIP: string, localIP: string, n: nat)
    ensures var c := Candidates(subnet, routerIP, localIP, n);
      && (n >= FirstHost ==> |c| <= n - FirstHost)
      && (forall k :: 0 <= k < |c| ==> c[k] != routerIP && c[k] != localIP)
      && (forall k :: 0 <= k < |c| ==> IsHostAddressBelow(subnet, c[k], n))
  {
    if n > FirstHost {
      var c' := Candidates(subnet, routerIP, localIP, n - 1);
      var c := Candidates(subnet, routerIP, localIP, n);
      var ip := subnet + NatToString(n - 1);
      CandidatesSound(subnet, routerIP, localIP, n - 1);
      forall k | 0 <= k < |c|
        ensures c[k] != routerIP && c[k] != localIP
        ensures IsHostAddressBelow(subnet, c[k], n)
      {
        if k < |c'| {
          var i :| i < n - 1 && IsHostAddress(subnet, c'[k], i);
          assert c[k] == c'[k];
          assert IsHostAddress(subnet, c[k], i);
        } else {
          assert c[k] == ip;
          assert IsHostAddress(subnet, c[k], n - 1);
        }
      }
    }
  }

  /** Every host address below `n` other than the two primary addresses is a candidate. */
  lemma {:induction false} CandidatesComplete(subnet: string, routerIP: string, localIP: string, n: nat)
    ensures forall i :: FirstHost <= i < n && subnet + NatToString(i) != routerIP && subnet + NatToString(i) != localIP ==>
      subnet + NatToString(i) in Candidates(subnet, routerIP, localIP, n)
  {
    if n > FirstHost {
      CandidatesComplete(subnet, routerIP, localIP, n - 1);
    }
  }

  /** No address is a candidate twice. */
  lemma {:induction false} CandidatesDistinct(subnet: string, routerIP: string, localIP: string, n: nat)
    ensures Distinct(Candidates(subnet, routerIP, localIP, n))
  {
    if n > FirstHost {
      var c' := Candidates(subnet, routerIP, localIP, n - 1);
      var ip := subnet + NatToString(n - 1);
      CandidatesDistinct(subnet, routerIP, localIP, n - 1);
      CandidatesSound(subnet, routerIP, localIP, n - 1);
      forall k | 0 <= k < |c'|
        ensures c'[k] != ip
      {
        var i :| i < n - 1 && IsHostAddress(subnet, c'[k], i);
        if c'[k] == ip {
          PrefixCancel(subnet, NatToString(i), NatToString(n - 1));
          NatToStringInjective(i, n - 1);
        }
      }
      DistinctSnoc(c', ip);
    }
  }

  lemma DistinctSnoc(s: seq<string>, x: string)
    requires Distinct(s) && forall k :: 0 <= k < |s| ==> s[k] != x
    ensures Distinct(s + [x])
  {
  }

  /** The full sweep probes at most 254 addresses, none of them the router or this machine, each once. */
  lemma CandidateRange(subnet: string, routerIP: string, localIP: string)
    ensures var c := Candidates(subnet, routerIP, localIP, LastHost + 1);
      |c| <= LastHost && routerIP !in c && localIP !in c && Distinct(c)
  {
    CandidatesSpec(subnet, routerIP, localIP, LastHost + 1);
  }

  // ---------------------------------------------------------------- scan result

  /** The router or the local machine, profiled under the fixed name the scanner gives it. */
  function PrimaryDevice(ip: string, name: string, host: Host, localIP: string, localMac: string): Device
  {
    Device(ip, name, Latency.Render(Latency.Aggregate(host.probes)), MacAddressOf(ip, localIP, localMac, host.arp))
  }

  /** A remainder address that answered, profiled: resolved name, latency sample, MAC. */
  function ProfileHost(ip: string, host: Host, localIP: string, localMac: string): Device
  {
    Device(ip, ResolveName(host.reverseLookup, host.nbtstat),
      Latency.Render(Latency.Aggregate(host.probes)), MacAddressOf(ip, localIP, localMac, host.arp))
  }

  /** The candidates that answer the liveness probe, in order. */
  function Online(candidates: seq<string>, net: string -> Host): seq<string>
  {
    if candidates == [] then []
    else
      var ip := candidates[|candidates| - 1];
      Online(candidates[..|candidates| - 1], net) + (if net(ip).online then [ip] else [])
  }

  /** The profiles of the candidates that answer, in order. */
  function Remainder(candidates: seq<string>, net: string -> Host, localIP: string, localMac: string): seq<Device>
  {
    if candidates == [] then []
    else
      var ip := candidates[|candidates| - 1];
      Remainder(candidates[..|candidates| - 1], net, localIP, localMac) +
        (if net(ip).online then [ProfileHost(ip, net(ip), localIP, localMac)] else [])
  }

  function Addresses(devices: seq<Device>): seq<string>
  {
    seq(|devices|, k requires 0 <= k < |devices| => devices[k].ipAddress)
  }

  /** What one scan returns: router, local machine, then the remainder devices. */
  function ScanResult(subnet: string, routerIP: string, localIP: string, localMac: string, net: string -> Host): seq<Device>
  {
    [PrimaryDevice(routerIP, RouterName, net(routerIP), localIP, localMac),
     PrimaryDevice(localIP, LocalName, net(localIP), localIP, localMac)] +
    Remainder(Candidates(subnet, routerIP, localIP, LastHost + 1), net, localIP, localMac)
  }

  /** The online candidates are the candidates that answer, keeping their order and distinctness. */
  lemma {:induction false} OnlineSpec(candidates: seq<string>, net: string -> Host)
    ensures |Online(candidates, net)| <= |candidates|
    ensures forall a :: a in Online(candidates, net) <==> a in candidates && net(a).online
    ensures Distinct(candidates) ==> Distinct(Online(candidates, net))
  {
    if candidates != [] {
      var init := candidates[..|candidates| - 1];
      var ip := candidates[|candidates| - 1];
      OnlineSpec(init, net);
      assert candidates == init + [ip];
      if Distinct(candidates) {
        assert Distinct(init);
        assert ip !in init;
      }
    }
  }

  /** The remainder devices are the profiles of the online candidates, one each, in order. */
  lemma {:induction false} RemainderSpec(candidates: seq<string>, net: string -> Host, localIP: string, localMac: string)
    ensures var r := Remainder(candidates, net, localIP, localMac);
      && Addresses(r) == Online(candidates, net)
      && forall k :: 0 <= k < |r| ==> r[k] == ProfileHost(r[k].ipAddress, net(r[k].ipAddress), localIP, localMac)
  {
    if candidates != [] {
      var init := candidates[..|candidates| - 1];
      var ip := candidates[|candidates| - 1];
      RemainderSpec(init, net, localIP, localMac);
      var r := Remainder(candidates, net, localIP, localMac);
      var r' := Remainder(init, net, localIP, localMac);
      var tail := if net(ip).online then [ProfileHost(ip, net(ip), localIP, localMac)] else [];
      assert r == r' + tail;
      assert Addresses(r) == Online(candidates, net) by {
        assert Addresses(r) == Addresses(r') + (if net(ip).online then [ip] else []);
      }
      forall k | 0 <= k < |r|
        ensures r[k] == ProfileHost(r[k].ipAddress, net(r[k].ipAddress), localIP, localMac)
      {
        if k < |r'| {
          assert r[k] == r'[k];
        }
      }
    }
  }

  /**
    * The shape of a scan result: the router entry first and the local entry
    * second, whatever their probes answered; after them one profile for each
    * candidate that answered the liveness probe, each address once, none of
    * them the router or the local address.
    */
  lemma ScanResultShape(subnet: string, routerIP: string, localIP: string, localMac: string, net: string -> Host)
    ensures var r := ScanResult(subnet, routerIP, localIP, localMac, net);
      var c := Candidates(subnet, routerIP, localIP, LastHost + 1);
      && |r| == 2 + |Online(c, net)| <= 2 + LastHost
      && r[0].ipAddress == routerIP && r[0].hostName == RouterName
      && r[1].ipAddress == localIP && r[1].hostName == LocalName
      && (forall k :: 2 <= k < |r| ==>
            && r[k].ipAddress in c && net(r[k].ipAddress).online
            && r[k].ipAddress != routerIP && r[k].ipAddress != localIP
            && r[k] == ProfileHost(r[k].ipAddress, net(r[k].ipAddress), localIP, localMac))
      && (forall a :: a in c && net(a).online ==> a in Addresses(r[2..]))
      && Distinct(Addresses(r[2..]))
  {
    var r := ScanResult(subnet, routerIP, localIP, localMac, net);
    var c := Candidates(subnet, routerIP, localIP, LastHost + 1);
    var rest := Remainder(c, net, localIP, localMac);
    CandidateRange(subnet, routerIP, localIP);
    OnlineSpec(c, net);
    RemainderSpec(c, net, localIP, localMac);
    assert r[2..] == rest;
    assert |rest| == |Addresses(rest)|;
    forall k | 2 <= k < |r|
      ensures r[k].ipAddress in c && net(r[k].ipAddress).online
    {
      assert r[k] == rest[k - 2];
      assert Addresses(rest)[k - 2] == r[k].ipAddress;
    }
  }

  // ---------------------------------------------------------------- latency history

  /**
    * The history after the devices' latencies were stored one after another,
    * each under its address, sentinels included.
    */
  function Record(history: map<string, string>, devices: seq<Device>): (r: map<string, string>)
    ensures forall a :: a in history ==> a in r
  {
    if devices == [] then history
    else
      var d := devices[|devices| - 1];
      Record(history, devices[..|devices| - 1])[d.ipAddress := d.latency]
  }

  /**
    * Storing the devices' latencies writes each device's address with its own
    * latency string and leaves every other address as it was.
    */
  lemma {:induction false} RecordSpec(history: map<string, string>, devices: seq<Device>)
    requires Distinct(Addresses(devices))
    ensures forall k :: 0 <= k < |devices| ==>
      devices[k].ipAddress in Record(history, devices) && Record(history, devices)[devices[k].ipAddress] == devices[k].latency
    ensures forall a :: a !in Addresses(devices) ==>
      (a in Record(history, devices) <==> a in history) &&
      (a in history ==> Record(history, devices)[a] == history[a])
  {
    if devices != [] {
      var init := devices[..|devices| - 1];
      var d := devices[|devices| - 1];
      assert Addresses(init) == Addresses(devices)[..|devices| - 1];
      RecordSpec(history, init);
      var m', m := Record(history, init), Record(history, devices);
      assert m == m'[d.ipAddress := d.latency];
      forall k | 0 <= k < |devices|
        ensures devices[k].ipAddress in m && m[devices[k].ipAddress] == devices[k].latency
      {
        if k < |init| {
          assert Addresses(devices)[k] == init[k].ipAddress;
          assert Addresses(devices)[|devices| - 1] == d.ipAddress;
          assert init[k] == devices[k];
        }
      }
      forall a | a !in Addresses(devices)
        ensures (a in m <==> a in history) && (a in history ==> m[a] == history[a])
      {
        assert Addresses(devices)[|devices| - 1] == d.ipAddress;
        assert a != d.ipAddress && a !in Addresses(init);
      }
    }
  }

  /**
    * A regression is reported for `ip` when the history holds it, both the
    * stored and the new latency parse as integers once `" ms"` is removed, and
    * the new one is larger.
    */
  predicate IsRegression(history: map<string, string>, ip: string, latency: string)
    ensures IsRegression(history, ip, latency) ==> ip in history && latency != history[ip]
  {
    && ip in history
    && Latency.ParseLatency(history[ip]).Some?
    && Latency.ParseLatency(latency).Some?
    && Latency.ParseLatency(latency).value > Latency.ParseLatency(history[ip]).value
  }

  /** The addresses for which a regression is reported while the devices are stored one after another. */
  function Regressions(history: map<string, string>, devices: seq<Device>): seq<string>
  {
    if devices == [] then []
    else
      var init := devices[..|devices| - 1];
      var d := devices[|devices| - 1];
      Regressions(history, init) + (if IsRegression(Record(history, init), d.ipAddress, d.latency) then [d.ipAddress] else [])
  }

  /**
    * With one device per address, a regression is reported for an address
    * exactly when its new latency regresses against the history as it was
    * before the scan.
    */
  lemma RegressionsSpec(history: map<string, string>, devices: seq<Device>)
    requires Distinct(Addresses(devices))
    ensures forall ip :: ip in Regressions(history, devices) <==> exists k :: RegressedAt(history, devices, k, ip)
  {
    forall ip | ip in Regressions(history, devices)
      ensures exists k :: RegressedAt(history, devices, k, ip)
    {
      RegressionsSound(history, devices, ip);
    }
    forall ip, k | RegressedAt(history, devices, k, ip)
      ensures ip in Regressions(history, devices)
    {
      RegressionsComplete(history, devices, k, ip);
    }
  }

  lemma {:induction false} RegressionsSound(history: map<string, string>, devices: seq<Device>, ip: string)
    requires Distinct(Addresses(devices)) && ip in Regressions(history, devices)
    ensures exists k :: RegressedAt(history, devices, k, ip)
    decreases |devices|
  {
    var last := |devices| - 1;
    var init := devices[..last];
    var d := devices[last];
    assert Addresses(init) == Addresses(devices)[..last];
    if ip in Regressions(history, init) {
      RegressionsSound(history, init, ip);
      var k :| RegressedAt(history, init, k, ip);
      assert RegressedAt(history, devices, k, ip);
    } else {
      LastVerdict(history, devices);
      assert RegressedAt(history, devices, last, ip);
    }
  }

  lemma {:induction false} RegressionsComplete(history: map<string, string>, devices: seq<Device>, k: int, ip: string)
    requires Distinct(Addresses(devices)) && RegressedAt(history, devices, k, ip)
    ensures ip in Regressions(history, devices)
    decreases |devices|
  {
    var last := |devices| - 1;
    if k < last {
      EarlierStep(history, devices, k, ip);
      RegressionsComplete(history, devices[..last], k, ip);
      StillReported(history, devices, ip);
    } else {
      LastStep(history, devices, ip);
    }
  }

  lemma EarlierStep(history: map<string, string>, devices: seq<Device>, k: int, ip: string)
    requires Distinct(Addresses(devices)) && RegressedAt(history, devices, k, ip) && k < |devices| - 1
    ensures Distinct(Addresses(devices[..|devices| - 1])) && RegressedAt(history, devices[..|devices| - 1], k, ip)
  {
    DistinctInit(devices);
    assert devices[..|devices| - 1][k] == devices[k];
  }

  lemma StillReported(history: map<string, string>, devices: seq<Device>, ip: string)
    requires devices != [] && ip in Regressions(history, devices[..|devices| - 1])
    ensures ip in Regressions(history, devices)
  {
  }

  lemma LastStep(history: map<string, string>, devices: seq<Device>, ip: string)
    requires Distinct(Addresses(devices)) && RegressedAt(history, devices, |devices| - 1, ip)
    ensures ip in Regressions(history, devices)
  {
    LastVerdict(history, devices);
  }

  /** The `k`-th device has address `ip` and its latency regresses against `history`. */
  ghost predicate RegressedAt(history: map<string, string>, devices: seq<Device>, k: int, ip: string)
  {
    0 <= k < |devices| && devices[k].ipAddress == ip && IsRegression(history, ip, devices[k].latency)
  }

  /** The last device is judged against the history before the scan, as its address was not written before. */
  lemma LastVerdict(history: map<string, string>, devices: seq<Device>)
    requires devices != [] && Distinct(Addresses(devices))
    ensures var d := devices[|devices| - 1];
      IsRegression(Record(history, devices[..|devices| - 1]), d.ipAddress, d.latency) == IsRegression(history, d.ipAddress, d.latency)
  {
    var init := devices[..|devices| - 1];
    var d := devices[|devices| - 1];
    LastIsNew(devices);
    assert Addresses(init) == Addresses(devices)[..|devices| - 1];
    RecordSpec(history, init);
    SameEntrySameVerdict(Record(history, init), history, d.ipAddress, d.latency);
  }

  lemma DistinctInit(devices: seq<Device>)
    requires devices != [] && Distinct(Addresses(devices))
    ensures Distinct(Addresses(devices[..|devices| - 1]))
  {
    assert Addresses(devices[..|devices| - 1]) == Addresses(devices)[..|devices| - 1];
  }

  lemma LastIsNew(devices: seq<Device>)
    requires devices != [] && Distinct(Addresses(devices))
    ensures devices[|devices| - 1].ipAddress !in Addresses(devices[..|devices| - 1])
  {
    var last := |devices| - 1;
    forall k | 0 <= k < last
      ensures Addresses(devices[..last])[k] != devices[last].ipAddress
    {
      assert Addresses(devices)[k] == devices[k].ipAddress;
      assert Addresses(devices)[last] == devices[last].ipAddress;
    }
  }

  /** The verdict for an address depends only on what the history holds for that address. */
  lemma SameEntrySameVerdict(h: map<string, string>, h': map<string, string>, ip: string, latency: string)
    requires (ip in h <==> ip in h') && (ip in h ==> h[ip] == h'[ip])
    ensures IsRegression(h, ip, latency) == IsRegression(h', ip, latency)
  {
  }

  /**
    * After a scan, the history maps every remainder device's address to the
    * latency string it displays; every other address, the router and the local
    * address among them, keeps what it had; and a regression is reported for
    * exactly the remainder addresses whose new latency regresses against the
    * history before the scan.
    */
  lemma HistoryAfterScan(history: map<string, string>, subnet: string, routerIP: string, localIP: string,
                         localMac: string, net: string -> Host)
    ensures var r := ScanResult(subnet, routerIP, localIP, localMac, net);
      var h := Record(history, r[2..]);
      && (forall k :: 2 <= k < |r| ==> r[k].ipAddress in h && h[r[k].ipAddress] == r[k].latency)
      && (forall a :: a !in Addresses(r[2..]) ==> (a in h <==> a in history) && (a in history ==> h[a] == history[a]))
      && routerIP !in Addresses(r[2..]) && localIP !in Addresses(r[2..])
      && (forall ip :: ip in Regressions(history, r[2..]) <==>
            exists k :: 2 <= k < |r| && r[k].ipAddress == ip && IsRegression(history, ip, r[k].latency))
  {
    var r := ScanResult(subnet, routerIP, localIP, localMac, net);
    var rest := r[2..];
    ScanResultShape(subnet, routerIP, localIP, localMac, net);
    RecordSpec(history, rest);
    RegressionsSpec(history, rest);
    forall k | 0 <= k < |rest|
      ensures Addresses(rest)[k] != routerIP && Addresses(rest)[k] != localIP
    {
      assert rest[k] == r[k + 2];
    }
    forall ip | ip in Regressions(history, rest)
      ensures exists k :: 2 <= k < |r| && r[k].ipAddress == ip && IsRegression(history, ip, r[k].latency)
    {
      var k :| RegressedAt(history, rest, k, ip);
      assert r[k + 2] == rest[k];
    }
    forall ip, k | 2 <= k < |r| && r[k].ipAddress == ip && IsRegression(history, ip, r[k].latency)
      ensures ip in Regressions(history, rest)
    {
      assert rest[k - 2] == r[k];
      assert RegressedAt(history, rest, k - 2, ip);
    }
  }

  /** Two measured latencies that fit in 32 bits regress exactly when the new one is larger. */
  lemma RegressionOnMillis(history: map<string, string>, ip: string, previous: nat, current: nat)
    requires previous <= Int32Max && current <= Int32Max
    ensures current > previous <==>
      IsRegression(history[ip := Latency.Render(Latency.Millis(previous))], ip, Latency.Render(Latency.Millis(current)))
  {
    Latency.LatencyRoundTrip(previous);
    Latency.LatencyRoundTrip(current);
  }

  /**
    * A time-out or an error stored for an address hides the earlier measured
    * latency: the next sample of that address is never reported, and a sentinel
    * sample is never reported either.
    */
  lemma SentinelNeverRegresses(history: map<string, string>, ip: string, sentinel: Latency.Sample, latency: string)
    requires !sentinel.Millis?
    ensures !IsRegression(history[ip := Latency.Render(sentinel)], ip, latency)
    ensures !IsRegression(history, ip, Latency.Render(sentinel))
  {
    Latency.SentinelsDoNotParse(sentinel);
  }

  /** 20 ms stored for 10.0.0.5, then 35 ms measured, is a regression; 15 ms is not. */
  lemma RegressionExample()
    ensures IsRegression(map["10.0.0.5" := "20 ms"], "10.0.0.5", "35 ms")
    ensures !IsRegression(map["10.0.0.5" := "20 ms"], "10.0.0.5", "15 ms")
  {
    assert NatToString(20) == "20" && NatToString(35) == "35" && NatToString(15) == "15";
    assert Latency.Render(Latency.Millis(20)) == "20 ms";
    assert Latency.Render(Latency.Millis(35)) == "35 ms";
    assert Latency.Render(Latency.Millis(15)) == "15 ms";
    var history: map<string, string> := map[];
    assert map["10.0.0.5" := "20 ms"] == history["10.0.0.5" := Latency.Render(Latency.Millis(20))];
    RegressionOnMillis(history, "10.0.0.5", 20, 35);
    RegressionOnMillis(history, "10.0.0.5", 20, 15);
  }

  lemma RemainderSnoc(candidates: seq<string>, ip: string, net: string -> Host, localIP: string, localMac: string)
    ensures Remainder(candidates + [ip], net, localIP, localMac) ==
      Remainder(candidates, net, localIP, localMac) + (if net(ip).online then [ProfileHost(ip, net(ip), localIP, localMac)] else [])
  {
    assert (candidates + [ip])[..|candidates|] == candidates;
  }

  /** The remainder grows by the profile of host number `i` exactly when that address is a candidate that answers. */
  lemma RemainderStep(subnet: string, routerIP: string, localIP: string, localMac: string, net: string -> Host, i: nat)
    requires FirstHost <= i
    ensures var ip := subnet + NatToString(i);
      Remainder(Candidates(subnet, routerIP, localIP, i + 1), net, localIP, localMac) ==
      Remainder(Candidates(subnet, routerIP, localIP, i), net, localIP, localMac) +
        (if ip == routerIP || ip == localIP || !net(ip).online then [] else [ProfileHost(ip, net(ip), localIP, localMac)])
  {
    var ip := subnet + NatToString(i);
    var candidates := Candidates(subnet, routerIP, localIP, i);
    assert Candidates(subnet, routerIP, localIP, i + 1) ==
      candidates + (if ip == routerIP || ip == localIP then [] else [ip]);
    if ip != routerIP && ip != localIP {
      RemainderSnoc(candidates, ip, net, localIP, localMac);
    } else {
      assert candidates + [] == candidates;
    }
  }

  lemma HistorySnoc(history: map<string, string>, devices: seq<Device>, d: Device)
    ensures Record(history, devices + [d]) == Record(history, devices)[d.ipAddress := d.latency]
    ensures Regressions(history, devices + [d]) ==
      Regressions(history, devices) + (if IsRegression(Record(history, devices), d.ipAddress, d.latency) then [d.ipAddress] else [])
  {
    assert (devices + [d])[..|devices|] == devices;
  }

  /** The router's or this machine's entry: a fixed name, then its latency sample and its MAC address. */
  method ProfilePrimary(ip: string, name: string, host: Host, localIP: string, localMac: string) returns (device: Device)
    ensures device == PrimaryDevice(ip, name, host, localIP, localMac)
  {
    var latency := Latency.MeasureLatency(host.probes);
    var macAddress := GetMacAddress(ip, localIP, localMac, host.arp);
    device := Device(ip, name, latency, macAddress);
  }

  /**
    * The profile of one remainder address that answered: its reverse-lookup
    * name, replaced by its NetBIOS name when that lookup gave the sentinel, its
    * latency sample and its MAC address.
    */
  method ProfileAddress(ip: string, host: Host, localIP: string, localMac: string) returns (device: Device)
    ensures device == ProfileHost(ip, host, localIP, localMac)
  {
    var hostName := HostNameOf(host.reverseLookup);
    var latency := Latency.MeasureLatency(host.probes);
    var macAddress := GetMacAddress(ip, localIP, localMac, host.arp);
    device := Device(ip, hostName, latency, macAddress);
    if device.hostName == UnknownName {
      var name := GetNetBiosName(host.nbtstat);
      device := device.(hostName := name);
    }
  }

  // ---------------------------------------------------------------- the scanner

  /**
    * The state after the host numbers below `i` were visited: the remainder
    * profiles so far, the history with their latencies stored, and the
    * regressions reported on the way.
    */
  ghost predicate Swept(subnet: string, routerIP: string, localIP: string, localMac: string, net: string -> Host, i: nat,
                        history: map<string, string>, latencies: map<string, string>, remainder: seq<Device>, regressed: seq<string>)
  {
    && remainder == Remainder(Candidates(subnet, routerIP, localIP, i), net, localIP, localMac)
    && latencies == Record(history, remainder)
    && regressed == Regressions(history, remainder)
  }

  /** The scanner window's state that outlives one scan: the last latency string seen per address. */
  class Scanner {
    var previousLatencies: map<string, string>

    constructor ()
      ensures previousLatencies == map[]
    {
      previousLatencies := map[];
    }

    /** Compares a remainder device's new latency with the stored one, then stores the new one. */
    method NoteLatency(ip: string, latency: string) returns (regressed: bool)
      modifies this
      ensures regressed == IsRegression(old(previousLatencies), ip, latency)
      ensures previousLatencies == old(previousLatencies)[ip := latency]
    {
      regressed := false;
      if ip in previousLatencies {
        var previous := Latency.ParseLatency(previousLatencies[ip]);
        var current := Latency.ParseLatency(latency);
        if previous.Some? && current.Some? && current.value > previous.value {
          regressed := true;
        }
      }
      previousLatencies := previousLatencies[ip := latency];
    }

    /**
      * One sweep of `subnet`: profiles the router and this machine, then every
      * other candidate that answers, storing each remainder latency in the
      * history; returns the devices and the addresses whose latency regressed.
      */
    method ScanNetwork(subnet: string, routerIP: string, localIP: string, localMac: string, net: string -> Host)
      returns (devices: seq<Device>, regressed: seq<string>)
      modifies this
      ensures devices == ScanResult(subnet, routerIP, localIP, localMac, net)
      ensures previousLatencies == Record(old(previousLatencies), devices[2..])
      ensures regressed == Regressions(old(previousLatencies), devices[2..])
    {
      var router := ProfilePrimary(routerIP, RouterName, net(routerIP), localIP, localMac);
      devices := [router];
      var local := ProfilePrimary(localIP, LocalName, net(localIP), localIP, localMac);
      devices := devices + [local];
      var remainder;
      remainder, regressed := SweepRemainder(subnet, routerIP, localIP, localMac, net);
      devices := devices + remainder;
      assert devices[2..] == remainder;
    }

    /**
      * The remainder addresses, one after another: each candidate that answers
      * is profiled, compared with its stored latency and stored.
      */
    method SweepRemainder(subnet: string, routerIP: string, localIP: string, localMac: string, net: string -> Host)
      returns (remainder: seq<Device>, regressed: seq<string>)
      modifies this
      ensures remainder == Remainder(Candidates(subnet, routerIP, localIP, LastHost + 1), net, localIP, localMac)
      ensures previousLatencies == Record(old(previousLatencies), remainder)
      ensures regressed == Regressions(old(previousLatencies), remainder)
    {
      remainder := [];
      regressed := [];
      ghost var history := previousLatencies;
      for i := FirstHost to LastHost + 1
        invariant Swept(subnet, routerIP, localIP, localMac, net, i, history, previousLatencies, remainder, regressed)
      {
        remainder, regressed := SweepAddress(subnet, routerIP, localIP, localMac, net, i, history, remainder, regressed);
      }
    }

    /**
      * The work for host number `i` (one `Task` in `Form1.cs`): a candidate that answers is profiled,
      * compared with its stored latency and stored; anything else changes nothing.
      */
    method SweepAddress(subnet: string, routerIP: string, localIP: string, localMac: string, net: string -> Host, i: nat,
                        ghost history: map<string, string>, remainder: seq<Device>, regressed: seq<string>)
      returns (remainder': seq<Device>, regressed': seq<string>)
      requires FirstHost <= i
      requires Swept(subnet, routerIP, localIP, localMac, net, i, history, previousLatencies, remainder, regressed)
      modifies this
      ensures Swept(subnet, routerIP, localIP, localMac, net, i + 1, history, previousLatencies, remainder', regressed')
    {
      remainder', regressed' := remainder, regressed;
      var ip := subnet + NatToString(i);
      RemainderStep(subnet, routerIP, localIP, localMac, net, i);
      if ip == routerIP || ip == localIP {
        return;
      }
      var host := net(ip);
      if host.online {
        var device := ProfileAddress(ip, host, localIP, localMac);
        HistorySnoc(history, remainder, device);
        remainder' := remainder + [device];
        var isRegression := NoteLatency(ip, device.latency);
        if isRegression {
          regressed' := regressed + [ip];
        }
      }
    }

    /**
      * One refresh: without a gateway address or a prefix derived from it the
      * scan does not start and the user is told why; otherwise the sweep runs.
      */
    method UpdateDeviceData(routerIP: Option<string>, localIP: string, localMac: string, net: string -> Host)
      returns (outcome: ScanOutcome)
      modifies this
      ensures routerIP.None? ==> outcome == NotScanned(NoRouterNotice) && previousLatencies == old(previousLatencies)
      ensures routerIP.Some? && GetSubnet(routerIP.value).None? ==>
        outcome == NotScanned(NoSubnetNotice) && previousLatencies == old(previousLatencies)
      ensures routerIP.Some? && GetSubnet(routerIP.value).Some? ==>
        var devices := ScanResult(GetSubnet(routerIP.value).value, routerIP.value, localIP, localMac, net);
        outcome == Scanned(devices) && previousLatencies == Record(old(previousLatencies), devices[2..])
    {
      if routerIP.None? {
        return NotScanned(NoRouterNotice);
      }
      var subnet := GetSubnet(routerIP.value);
      if subnet.None? {
        return NotScanned(NoSubnetNotice);
      }
      var devices, _ := ScanNetwork(subnet.value, routerIP.value, localIP, localMac, net);
      outcome := Scanned(devices);
    }
  }
}
