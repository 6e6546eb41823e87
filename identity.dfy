/**
  * Identity of a host: the reverse-lookup name, the NetBIOS name read from the
  * text `nbtstat -A <ip>` prints, and the MAC address read from the text
  * `arp -a` prints.  The lookups and the processes are inputs; what is modelled
  * is how their results are read.
  */
module Identity {
  import opened Outcomes
  import opened Text

  const MacNotFound := "MAC Address not found"
  const UnknownName := "Unknown"

  /** `Environment.NewLine` on Windows, where the scanner runs. */
  const NewLine := "\r\n"

  /** The lines of a process's output, empty ones included. */
  function Lines(output: string): seq<string>
  {
    Split(output, NewLine)
  }

  /** The space-separated tokens of a line, empty ones dropped. */
  function Tokens(line: string): seq<string>
  {
    NonEmpty(Split(line, " "))
  }

  // ---------------------------------------------------------------- MAC tokens

  /**
    * A token is taken for a MAC address when it has 17 characters, exactly 5 of
    * them hyphens: so it holds a hyphen, and twelve characters that are not.
    */
  predicate IsValidMacAddress(macAddress: string)
    ensures IsValidMacAddress(macAddress) ==> '-' in macAddress && |macAddress| - CountChar(macAddress, '-') == 12
  {
    |macAddress| == 17 && CountChar(macAddress, '-') == 5
  }

  /** The hyphens removed and the letters upper-cased. */
  function FormatMacAddress(macAddress: string): (r: string)
    ensures |r| == |macAddress| - CountChar(macAddress, '-')
    ensures '-' !in r
  {
    EraseChar(macAddress, '-');
    ToUpperSpec(Erase(macAddress, "-"));
    ToUpper(Erase(macAddress, "-"))
  }

  /**
    * Formatting drops every hyphen and keeps every other character, upper-cased,
    * so that it is idempotent and leaves no lower-case letter.
    */
  lemma FormatMacAddressSpec(macAddress: string)
    ensures |FormatMacAddress(macAddress)| == |macAddress| - CountChar(macAddress, '-')
    ensures '-' !in FormatMacAddress(macAddress)
    ensures forall i :: 0 <= i < |FormatMacAddress(macAddress)| ==> !('a' <= FormatMacAddress(macAddress)[i] <= 'z')
    ensures FormatMacAddress(FormatMacAddress(macAddress)) == FormatMacAddress(macAddress)
  {
    var erased := Erase(macAddress, "-");
    EraseChar(macAddress, '-');
    ToUpperSpec(erased);
    var formatted := ToUpper(erased);
    EraseKeepsPrefix(formatted, [], "-");
    assert formatted + [] == formatted;
    assert Erase(formatted, "-") == formatted;
  }

  /**
    * Formatting keeps every character but the hyphens, upper-cased and in order:
    * a hyphen-free text is only upper-cased, and a hyphen cuts the text into two
    * halves that are formatted on their own.
    */
  lemma FormatMacAddressContents(a: string, b: string)
    ensures '-' !in a ==> FormatMacAddress(a) == ToUpper(a)
    ensures FormatMacAddress(a + "-" + b) == FormatMacAddress(a) + FormatMacAddress(b)
  {
    if '-' !in a {
      EraseCharAbsent(a, '-');
    }
    EraseCharAround(a, b, '-');
    ToUpperAppend(Erase(a, "-"), Erase(b, "-"));
  }

  /** A valid token formats to the twelve hexadecimal digits without separators. */
  lemma FormatValidMacAddress(macAddress: string)
    requires IsValidMacAddress(macAddress)
    ensures |FormatMacAddress(macAddress)| == 12 && '-' !in FormatMacAddress(macAddress)
  {
    FormatMacAddressSpec(macAddress);
  }

  /** Only hyphens count as separators: a colon-separated address is refused. */
  lemma ColonSeparatedRejected(macAddress: string)
    requires '-' !in macAddress
    ensures !IsValidMacAddress(macAddress)
  {
  }

  /** The colon-separated form of a MAC is not taken for one. */
  lemma ColonSeparatedExample()
    ensures !IsValidMacAddress("00:1A:2B:3C:4D:5E")
  {
    ColonSeparatedRejected("00:1A:2B:3C:4D:5E");
  }

  // ---------------------------------------------------------------- ARP table

  /** A line of `arp -a` that answers for `ip`: it mentions `ip` and its second of at least three tokens is a MAC. */
  predicate IsArpEntryFor(line: string, ip: string)
  {
    Contains(line, ip) && |Tokens(line)| >= 3 && IsValidMacAddress(Tokens(line)[1])
  }

  /** The formatted MAC of the first line that answers for `ip`, else the not-found sentinel. */
  function ArpLookup(lines: seq<string>, ip: string): string
  {
    if lines == [] then MacNotFound
    else if IsArpEntryFor(lines[0], ip) then FormatMacAddress(Tokens(lines[0])[1])
    else ArpLookup(lines[1..], ip)
  }

  /**
    * `GetMacAddress`: the local interface's MAC for the local address; otherwise
    * the exception's message, or the lookup over the non-empty lines of `arp -a`.
    */
  function MacAddressOf(ip: string, localIP: string, localMac: string, arp: Captured): string
  {
    if ip == localIP then localMac
    else
      match arp
      case Raised(m) => ErrorPrefix + m
      case Output(output) => ArpLookup(NonEmpty(Lines(output)), ip)
  }

  /** Scans the ARP table line by line and returns at the first line that answers for the address. */
  method GetMacAddress(ipAddress: string, localIP: string, localMac: string, arp: Captured) returns (mac: string)
    ensures mac == MacAddressOf(ipAddress, localIP, localMac, arp)
  {
    if ipAddress == localIP {
      return localMac;
    }
    match arp {
      case Raised(m) =>
        return ErrorPrefix + m;
      case Output(output) =>
        var lines := NonEmpty(Lines(output));
        for i := 0 to |lines|
          invariant ArpLookup(lines[i..], ipAddress) == ArpLookup(lines, ipAddress)
        {
          assert lines[i..][1..] == lines[i + 1..];
          var line := lines[i];
          if Contains(line, ipAddress) {
            var segments := Tokens(line);
            if |segments| >= 3 {
              var macAddress := segments[1];
              if IsValidMacAddress(macAddress) {
                return FormatMacAddress(macAddress);
              }
            }
          }
        }
        assert lines[|lines|..] == [];
        return MacNotFound;
    }
  }

  /** The lookup returns the MAC of the first line that answers for the address. */
  lemma {:induction false} ArpLookupFirst(lines: seq<string>, ip: string, i: nat)
    requires i < |lines| && IsArpEntryFor(lines[i], ip)
    requires forall j :: 0 <= j < i ==> !IsArpEntryFor(lines[j], ip)
    ensures ArpLookup(lines, ip) == FormatMacAddress(Tokens(lines[i])[1])
  {
    if i > 0 {
      ArpLookupFirst(lines[1..], ip, i - 1);
    }
  }

  /** When no line answers for the address, the lookup returns the sentinel. */
  lemma {:induction false} ArpLookupNone(lines: seq<string>, ip: string)
    requires forall j :: 0 <= j < |lines| ==> !IsArpEntryFor(lines[j], ip)
    ensures ArpLookup(lines, ip) == MacNotFound
  {
    if lines != [] {
      ArpLookupNone(lines[1..], ip);
    }
  }

  /** A lookup yields the sentinel or twelve characters without a hyphen. */
  lemma {:induction false} ArpLookupShape(lines: seq<string>, ip: string)
    ensures var r := ArpLookup(lines, ip);
      r == MacNotFound || (|r| == 12 && '-' !in r)
  {
    if lines != [] {
      if IsArpEntryFor(lines[0], ip) {
        FormatValidMacAddress(Tokens(lines[0])[1]);
      } else {
        ArpLookupShape(lines[1..], ip);
      }
    }
  }

  /** A line of three space-free words splits into those three words. */
  lemma TokensOfThree(a: string, b: string, c: string)
    requires a != [] && b != [] && c != []
    requires ' ' !in a && ' ' !in b && ' ' !in c
    ensures Tokens(a + " " + b + " " + c) == [a, b, c]
  {
    var rest := b + " " + c;
    assert a + " " + b + " " + c == a + [' '] + rest;
    SplitAround(a, rest, ' ');
    SplitAround(b, c, ' ');
    SplitWithout(a, ' ');
    SplitWithout(b, ' ');
    SplitWithout(c, ' ');
    assert Split(a + " " + b + " " + c, " ") == [a] + ([b] + [c]);
    NonEmptyAppend([a], [b] + [c]);
    NonEmptyAppend([b], [c]);
  }

  /**
    * The address test is a substring test: the entry of a longer address that
    * starts with the wanted one (`192.168.1.10` for `192.168.1.1`) answers for it.
    */
  lemma ArpMatchesLongerAddress(target: string, suffix: string, mac: string, kind: string)
    requires target != [] && suffix != [] && kind != []
    requires ' ' !in target && ' ' !in suffix && ' ' !in mac && ' ' !in kind
    requires IsValidMacAddress(mac)
    ensures var line := target + suffix + " " + mac + " " + kind;
      Tokens(line) == [target + suffix, mac, kind] && target + suffix != target &&
      ArpLookup([line], target) == FormatMacAddress(mac)
  {
    var line := target + suffix + " " + mac + " " + kind;
    TokensOfThree(target + suffix, mac, kind);
    assert target <= line;
    ContainsPrefix(line, target);
    assert IsArpEntryFor(line, target);
    assert |target + suffix| > |target|;
  }

  // ---------------------------------------------------------------- NetBIOS names

  /** A record naming the machine: a file-server record, or a unique workstation record. */
  predicate IsNameRecord(line: string)
  {
    Contains(line, "<20>") || (Contains(line, "<00>") && Contains(line, "UNIQUE"))
  }

  /** A name record carries a `'<'`. */
  lemma NameRecordHasSuffix(line: string)
    requires IsNameRecord(line)
    ensures '<' in line
  {
    if Contains(line, "<20>") {
      ContainsHead(line, "<20>");
    } else {
      ContainsHead(line, "<00>");
    }
  }

  /** The text of a line before its first `'<'`, trimmed. */
  function RecordName(line: string): (name: string)
    requires '<' in line
    ensures '<' !in name
  {
    Trim(line[..IndexOf(line, '<')], WhiteSpace)
  }

  /** The name of the first name record, else the unknown-name sentinel. */
  function NetBiosLookup(lines: seq<string>): string
  {
    if lines == [] then UnknownName
    else if IsNameRecord(lines[0]) then
      NameRecordHasSuffix(lines[0]);
      RecordName(lines[0])
    else NetBiosLookup(lines[1..])
  }

  /** `GetNetBiosName`: the lookup over every line of `nbtstat -A`, or the sentinel when the process failed. */
  function NetBiosNameOf(nbtstat: Captured): string
  {
    match nbtstat
    case Raised(_) => UnknownName
    case Output(output) => NetBiosLookup(Lines(output))
  }

  /** Scans the `nbtstat` output line by line and returns at the first name record. */
  method GetNetBiosName(nbtstat: Captured) returns (name: string)
    ensures name == NetBiosNameOf(nbtstat)
  {
    match nbtstat {
      case Raised(_) =>
        return UnknownName;
      case Output(output) =>
        var lines := Lines(output);
        for i := 0 to |lines|
          invariant NetBiosLookup(lines[i..]) == NetBiosLookup(lines)
        {
          assert lines[i..][1..] == lines[i + 1..];
          var line := lines[i];
          if Contains(line, "<20>") || (Contains(line, "<00>") && Contains(line, "UNIQUE")) {
            NameRecordHasSuffix(line);
            return Trim(line[..IndexOf(line, '<')], WhiteSpace);
          }
        }
        assert lines[|lines|..] == [];
        return UnknownName;
    }
  }

  /** The lookup returns the name of the first name record. */
  lemma {:induction false} NetBiosLookupFirst(lines: seq<string>, i: nat)
    requires i < |lines| && IsNameRecord(lines[i])
    requires forall j :: 0 <= j < i ==> !IsNameRecord(lines[j])
    ensures '<' in lines[i] && NetBiosLookup(lines) == RecordName(lines[i])
  {
    NameRecordHasSuffix(lines[i]);
    if i > 0 {
      NetBiosLookupFirst(lines[1..], i - 1);
    }
  }

  /** When no line is a name record, the lookup returns the sentinel. */
  lemma {:induction false} NetBiosLookupNone(lines: seq<string>)
    requires forall j :: 0 <= j < |lines| ==> !IsNameRecord(lines[j])
    ensures NetBiosLookup(lines) == UnknownName
  {
    if lines != [] {
      NetBiosLookupNone(lines[1..]);
    }
  }

  /** A NetBIOS name never holds the `'<'` that opens a record's suffix. */
  lemma {:induction false} NetBiosNameHasNoSuffix(nbtstat: Captured)
    ensures '<' !in NetBiosNameOf(nbtstat)
  {
    if nbtstat.Output? {
      NetBiosLookupHasNoSuffix(Lines(nbtstat.text));
    }
  }

  lemma {:induction false} NetBiosLookupHasNoSuffix(lines: seq<string>)
    ensures '<' !in NetBiosLookup(lines)
  {
    if lines != [] && !IsNameRecord(lines[0]) {
      NetBiosLookupHasNoSuffix(lines[1..]);
    }
  }

  // ---------------------------------------------------------------- host names

  /** `GetHostName`: the reverse-lookup name, or the sentinel when the lookup failed. */
  function HostNameOf(reverseLookup: Captured): (r: string)
    ensures reverseLookup.Output? ==> r == reverseLookup.text
    ensures reverseLookup.Raised? ==> r == UnknownName
    ensures r != UnknownName ==> reverseLookup == Output(r)
  {
    match reverseLookup
    case Output(name) => name
    case Raised(_) => UnknownName
  }

  /**
    * The name a remainder device is given: the reverse-lookup name, and the
    * NetBIOS name instead when that name is exactly the sentinel.
    */
  function ResolveName(reverseLookup: Captured, nbtstat: Captured): string
  {
    var name := HostNameOf(reverseLookup);
    if name == UnknownName then NetBiosNameOf(nbtstat) else name
  }

  /**
    * The NetBIOS name is taken exactly when the reverse lookup failed or answered
    * the sentinel itself; a name that is not the sentinel is kept as it is; and
    * a name taken from the NetBIOS table never holds a `'<'`.
    */
  lemma ResolveNameSpec(reverseLookup: Captured, nbtstat: Captured)
    ensures HostNameOf(reverseLookup) == UnknownName ==> ResolveName(reverseLookup, nbtstat) == NetBiosNameOf(nbtstat)
    ensures reverseLookup.Raised? || reverseLookup.text == UnknownName ==> ResolveName(reverseLookup, nbtstat) == NetBiosNameOf(nbtstat)
    ensures reverseLookup.Output? && reverseLookup.text != UnknownName ==>
      ResolveName(reverseLookup, nbtstat) == reverseLookup.text
    ensures reverseLookup.Raised? && nbtstat.Raised? ==> ResolveName(reverseLookup, nbtstat) == UnknownName
    ensures HostNameOf(reverseLookup) == UnknownName ==> '<' !in ResolveName(reverseLookup, nbtstat)
  {
    NetBiosNameHasNoSuffix(nbtstat);
  }
}
