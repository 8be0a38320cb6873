/** The three converters `convert_host_objects`, `convert_network_objects` and
    `convert_port_objects`. Each truncates its two files and writes their banners, then walks its
    selection of rows and appends one line per row to an output or a review file. */
module Conversion {
  import opened Wrappers
  import opened Decimal
  import opened Names
  import opened Masks
  import opened Frame

  /** The six text files the converters write. */
  datatype Channel =
    | ConvertedHosts     // ./converted/palo_host_objects.txt
    | HostErrors         // ./review/host_object_errors.txt
    | ConvertedNetworks  // ./converted/palo_network_objects.txt
    | NetworkErrors      // ./review/network_object_errors.txt
    | ConvertedPorts     // ./converted/palo_port_objects.txt
    | PortErrors         // ./review/port_object_errors.txt

  /** The fixed first line (and blank line) a converter writes after truncating a file. */
  function Banner(c: Channel): string
  {
    match c
    case ConvertedHosts => "-----------------------Converted Host Objects ---------------------------\n\n"
    case HostErrors => "-----------------------HOST OBJECT ERRORS -----------------------------\n\n"
    case ConvertedNetworks => "-----------------------Converted Network Objects ---------------------------\n\n"
    case NetworkErrors => "-----------------------NETWORK OBJECT ERRORS -----------------------------\n\n"
    case ConvertedPorts => "------------------------------Converted Port Objects ---------------------------\n\n"
    case PortErrors => "------------------------------Port Object Errors ------------------------------\n\n"
  }

  /** A file on disk: whether it starts with its banner (it was last opened with mode 'w' by a
      converter) and the texts appended after that, one per `f.write`. */
  datatype File = File(banner: bool, lines: seq<string>)

  /** The files on disk; a channel without an entry is a file that does not exist. */
  type Files = map<Channel, File>

  function FileOf(fs: Files, c: Channel): File
  {
    if c in fs then fs[c] else File(false, [])
  }

  /** The texts after the banner of a file; a file that does not exist has none. */
  function Lines(fs: Files, c: Channel): seq<string>
  {
    FileOf(fs, c).lines
  }

  /** Everything written to the file, in order: its banner, if it has one, then its lines. */
  function Contents(fs: Files, c: Channel): seq<string>
  {
    (if FileOf(fs, c).banner then [Banner(c)] else []) + Lines(fs, c)
  }

  /** `open(path, 'w')` followed by `f.write(banner)`. */
  function Truncate(fs: Files, c: Channel): Files
  {
    fs[c := File(true, [])]
  }

  /** `open(path, 'a')` followed by one `f.write(text)`; creates the file if it is missing. */
  function Append(fs: Files, c: Channel, text: string): (out: Files)
    ensures FileOf(out, c).banner == FileOf(fs, c).banner && Lines(out, c) == Lines(fs, c) + [text]
    ensures forall d :: d != c ==> FileOf(out, d) == FileOf(fs, d)
  {
    fs[c := File(FileOf(fs, c).banner, Lines(fs, c) + [text])]
  }

  /** One `Append` per text, in order: a file that receives no text is never opened. */
  function AppendAll(fs: Files, c: Channel, texts: seq<string>): Files
  {
    if texts == [] then fs else fs[c := File(FileOf(fs, c).banner, Lines(fs, c) + texts)]
  }

  /** Addresses longer than this are diverted to a review file. */
  const MaxAddressLength := 20

  /** The suffix every host address gets. */
  const HostSuffix := "/32"

  /** The protocol every service is emitted with. */
  const ServiceProtocol := "tcp"

  /** `set address {name} ip-netmask {address}{suffix}` and a newline. */
  function AddressDirective(name: string, address: string, suffix: string): string
  {
    "set address " + name + " ip-netmask " + address + suffix + "\n"
  }

  /** `set service {name} protocol {protocol} port {port}` and a newline. */
  function ServiceDirective(name: string, protocol: string, port: string): string
  {
    "set service " + name + " protocol " + protocol + " port " + port + "\n"
  }

  /** `{index}: {name} {address}` and a blank line; `index` is the row's pandas label. */
  function ErrorLine(index: nat, name: string, address: string): string
  {
    NatToString(index) + ": " + name + " " + address + "\n\n"
  }

  /** What one host or network row produces: a directive for the output file or an error
      line for the review file. */
  datatype Line = Directive(text: string) | Diverted(text: string)

  /** The texts of the directives, in order. */
  function Directives(ls: seq<Line>): seq<string>
  {
    if ls == [] then []
    else Directives(ls[..|ls| - 1]) + (if ls[|ls| - 1].Directive? then [ls[|ls| - 1].text] else [])
  }

  /** The texts of the diverted rows, in order. */
  function Diversions(ls: seq<Line>): seq<string>
  {
    if ls == [] then []
    else Diversions(ls[..|ls| - 1]) + (if ls[|ls| - 1].Diverted? then [ls[|ls| - 1].text] else [])
  }

  /** One more line extends exactly one of the two lists. */
  lemma LinesAppend(ls: seq<Line>, l: Line)
    ensures l.Directive? ==> Directives(ls + [l]) == Directives(ls) + [l.text] && Diversions(ls + [l]) == Diversions(ls)
    ensures l.Diverted? ==> Directives(ls + [l]) == Directives(ls) && Diversions(ls + [l]) == Diversions(ls) + [l.text]
  {
    assert (ls + [l])[..|ls|] == ls;
    assert Directives(ls) + [] == Directives(ls);
    assert Diversions(ls) + [] == Diversions(ls);
  }

  /** Every line lands in exactly one of the two lists, and the lists hold nothing else. */
  lemma {:induction false} LinesSplit(ls: seq<Line>)
    ensures |Directives(ls)| + |Diversions(ls)| == |ls|
    ensures forall t :: t in Directives(ls) <==> Directive(t) in ls
    ensures forall t :: t in Diversions(ls) <==> Diverted(t) in ls
  {
    if ls != [] {
      LinesSplit(ls[..|ls| - 1]);
      assert ls == ls[..|ls| - 1] + [ls[|ls| - 1]];
    }
  }

  /** Directives start with `s`, error lines with anything else (a digit). */
  predicate Distinguishable(ls: seq<Line>)
  {
    forall i :: 0 <= i < |ls| ==> ls[i].text != [] && (ls[i].Directive? <==> ls[i].text[0] == 's')
  }

  /** No text is both a directive and an error line, so a row's line sits in one file only. */
  lemma OutputAndReviewDisjoint(ls: seq<Line>)
    requires Distinguishable(ls)
    ensures forall t :: !(t in Directives(ls) && t in Diversions(ls))
  {
    LinesSplit(ls);
    forall t | t in Directives(ls) && t in Diversions(ls) ensures false {
    }
  }

  lemma ErrorLineStartsWithDigit(index: nat, name: string, address: string)
    ensures ErrorLine(index, name, address) != [] && IsDigit(ErrorLine(index, name, address)[0])
  {
    NatToStringCanonical(index);
  }

  /** The label written at the head of an error line reads back as the row's label. */
  lemma ErrorLineLabel(index: nat, name: string, address: string)
    ensures DigitsValue(LeadingDigits(ErrorLine(index, name, address))) == index
  {
    var rest := ": " + name + " " + address + "\n\n";
    assert ErrorLine(index, name, address) == NatToString(index) + rest;
    NatToStringCanonical(index);
    LeadingDigitsOfNumeral(NatToString(index), rest);
    DigitsValueOfNatToString(index);
  }

  /** The longest prefix of `s` without a space: the first field of a `set` command. */
  function Token(s: string): (t: string)
    ensures |t| <= |s| && t == s[..|t|] && ' ' !in t
    ensures |t| < |s| ==> s[|t|] == ' '
  {
    if s == [] || s[0] == ' ' then [] else [s[0]] + Token(s[1..])
  }

  lemma {:induction false} TokenOfWord(word: string, rest: string)
    requires ' ' !in word && rest != [] && rest[0] == ' '
    ensures Token(word + rest) == word
  {
    if word != [] {
      assert (word + rest)[1..] == word[1..] + rest;
      TokenOfWord(word[1..], rest);
    }
  }

  /** The name field of an address directive is the name given, when that has no space. */
  lemma AddressDirectiveName(name: string, address: string, suffix: string)
    requires ' ' !in name
    ensures |AddressDirective(name, address, suffix)| >= 12
    ensures Token(AddressDirective(name, address, suffix)[12..]) == name
  {
    var rest := " ip-netmask " + address + suffix + "\n";
    assert AddressDirective(name, address, suffix) == "set address " + (name + rest);
    TokenOfWord(name, rest);
  }

  /** The name field of a service directive is the name given, when that has no space. */
  lemma ServiceDirectiveName(name: string, protocol: string, port: string)
    requires ' ' !in name
    ensures |ServiceDirective(name, protocol, port)| >= 12
    ensures Token(ServiceDirective(name, protocol, port)[12..]) == name
  {
    var rest := " protocol " + protocol + " port " + port + "\n";
    assert ServiceDirective(name, protocol, port) == "set service " + (name + rest);
    TokenOfWord(name, rest);
  }


  // ---------------------------------------------------------------- hosts

  /** Every row has an IPv4 value, as `get_host_objects` and `get_network_objects` guarantee. */
  predicate Addressed(rows: seq<Row>)
  {
    forall i :: 0 <= i < |rows| ==> rows[i].ipv4.Some?
  }

  /** The line one host row produces: the raw name, the address and `/32`, unless the address is
      too long. */
  function HostLine(r: Row): Line
    requires r.ipv4.Some?
  {
    var address := r.ipv4.value;
    if |address| > MaxAddressLength then Diverted(ErrorLine(r.index, r.name, address))
    else Directive(AddressDirective(r.name, address, HostSuffix))
  }

  function HostLines(hosts: seq<Row>): (ls: seq<Line>)
    requires Addressed(hosts)
    ensures |ls| == |hosts| && forall i :: 0 <= i < |hosts| ==> ls[i] == HostLine(hosts[i])
  {
    if hosts == [] then [] else HostLines(hosts[..|hosts| - 1]) + [HostLine(hosts[|hosts| - 1])]
  }

  /** The files after `convert_host_objects` on `hosts`: both host files truncated to their
      banner, followed by the directives and the error lines in row order. */
  function HostConversion(hosts: seq<Row>, fs: Files): Files
    requires Addressed(hosts)
  {
    var ls := HostLines(hosts);
    fs[ConvertedHosts := File(true, Directives(ls))][HostErrors := File(true, Diversions(ls))]
  }

  /** One more host row appends its line to one of the two host files. */
  lemma HostConversionStep(hosts: seq<Row>, fs: Files, i: nat)
    requires Addressed(hosts) && i < |hosts|
    ensures HostConversion(hosts[..i + 1], fs) ==
      var before := HostConversion(hosts[..i], fs);
      match HostLine(hosts[i])
      case Directive(d) => Append(before, ConvertedHosts, d)
      case Diverted(e) => Append(before, HostErrors, e)
  {
    assert hosts[..i + 1][..i] == hosts[..i];
    assert HostLines(hosts[..i + 1]) == HostLines(hosts[..i]) + [HostLine(hosts[i])];
    LinesAppend(HostLines(hosts[..i]), HostLine(hosts[i]));
  }

  method ConvertHostObjects(hosts: seq<Row>, fs: Files) returns (out: Files)
    requires Addressed(hosts)
    ensures out == HostConversion(hosts, fs)
  {
    out := Truncate(fs, ConvertedHosts);
    out := Truncate(out, HostErrors);
    assert hosts[..0] == [];
    for i := 0 to |hosts|
      invariant out == HostConversion(hosts[..i], fs)
    {
      HostConversionStep(hosts, fs, i);
      var name := hosts[i].name;
      var address := hosts[i].ipv4.value;
      var mask := HostSuffix;
      if |address| > MaxAddressLength {
        out := Append(out, HostErrors, ErrorLine(hosts[i].index, name, address));
        continue;
      }
      out := Append(out, ConvertedHosts, AddressDirective(name, address, mask));
    }
    assert hosts[..|hosts|] == hosts;
  }

  lemma HostLinesDistinguishable(hosts: seq<Row>)
    requires Addressed(hosts)
    ensures Distinguishable(HostLines(hosts))
  {
    var ls := HostLines(hosts);
    forall i | 0 <= i < |ls| ensures ls[i].text != [] && (ls[i].Directive? <==> ls[i].text[0] == 's') {
      var r := hosts[i];
      ErrorLineStartsWithDigit(r.index, r.name, r.ipv4.value);
    }
  }

  /** Each host row yields exactly one line: a directive in the output file when its address has
      at most 20 characters, otherwise an error line in the review file; the two files hold one
      line per row after their banners. */
  lemma HostRowRouted(hosts: seq<Row>, fs: Files, i: nat)
    requires Addressed(hosts) && i < |hosts|
    ensures var out := HostConversion(hosts, fs);
      |Lines(out, ConvertedHosts)| + |Lines(out, HostErrors)| == |hosts|
    ensures var out := HostConversion(hosts, fs);
      var r := hosts[i];
      var d := AddressDirective(r.name, r.ipv4.value, HostSuffix);
      var e := ErrorLine(r.index, r.name, r.ipv4.value);
      if |r.ipv4.value| <= MaxAddressLength
      then d in Lines(out, ConvertedHosts) && d !in Lines(out, HostErrors)
      else e in Lines(out, HostErrors) && e !in Lines(out, ConvertedHosts)
  {
    var ls := HostLines(hosts);
    LinesSplit(ls);
    HostLinesDistinguishable(hosts);
    OutputAndReviewDisjoint(ls);
    assert ls[i] in ls;
  }

  /** The label at the head of a host error line names the table row it came from. */
  lemma HostErrorNamesRow(table: seq<Row>, x: Row)
    requires Indexed(table) && x in HostObjects(table) && x.ipv4.Some?
    ensures var e := ErrorLine(x.index, x.name, x.ipv4.value);
      var at := DigitsValue(LeadingDigits(e));
      0 <= at < |table| && table[at] == x
  {
    SelectionsKeepLabels(table);
    ErrorLineLabel(x.index, x.name, x.ipv4.value);
  }

  /** Host names are written as they are: a host row whose name has a space and whose address
      is short enough gives a directive whose name field is only the name's first word. */
  lemma HostNameNotNormalised(r: Row, first: string, second: string)
    requires r.ipv4.Some? && |r.ipv4.value| <= MaxAddressLength
    requires r.name == first + " " + second && first != [] && ' ' !in first
    ensures HostLine(r).Directive?
    ensures |HostLine(r).text| >= 12 && Token(HostLine(r).text[12..]) == first
  {
    var rest := " " + second + " ip-netmask " + r.ipv4.value + HostSuffix + "\n";
    assert HostLine(r).text == "set address " + (first + rest);
    TokenOfWord(first, rest);
  }

  /** The host output file a host run leaves is its banner followed by the directives of the
      short-address rows, in row order. */
  lemma HostOutputContents(hosts: seq<Row>, fs: Files)
    requires Addressed(hosts)
    ensures Contents(HostConversion(hosts, fs), ConvertedHosts) == [Banner(ConvertedHosts)] + Directives(HostLines(hosts))
  {
  }

  // ---------------------------------------------------------------- networks

  /** Every row has a Mask value, as `get_network_objects` guarantees. */
  predicate Masked(rows: seq<Row>)
  {
    forall i :: 0 <= i < |rows| ==> rows[i].mask.Some?
  }

  /** How many leading rows have a mask in `subnetMasks`: the rows the converter gets through
      before the lookup of an unknown mask raises. */
  function KnownMasks(subnetMasks: map<string, string>, rows: seq<Row>): (k: nat)
    requires Masked(rows)
    ensures k <= |rows|
    ensures forall i :: 0 <= i < k ==> rows[i].mask.value in subnetMasks
    ensures k < |rows| ==> rows[k].mask.value !in subnetMasks
  {
    if rows == [] || rows[0].mask.value !in subnetMasks then 0 else 1 + KnownMasks(subnetMasks, rows[1..])
  }

  /** Every row has an address and a mask that `subnetMasks` knows. */
  predicate Convertible(subnetMasks: map<string, string>, rows: seq<Row>)
  {
    forall i :: 0 <= i < |rows| ==> rows[i].ipv4.Some? && rows[i].mask.Some? && rows[i].mask.value in subnetMasks
  }

  /** The line one network row produces: the normalised name, the address and the row's CIDR
      suffix, unless the address is too long; the error line carries the normalised name too. */
  function NetworkLine(subnetMasks: map<string, string>, r: Row): Line
    requires r.ipv4.Some? && r.mask.Some? && r.mask.value in subnetMasks
  {
    var name := ReplaceWhitespace(r.name);
    var address := r.ipv4.value;
    if |address| > MaxAddressLength then Diverted(ErrorLine(r.index, name, address))
    else Directive(AddressDirective(name, address, Lookup(subnetMasks, r.mask.value).value))
  }

  function NetworkLines(subnetMasks: map<string, string>, networks: seq<Row>): (ls: seq<Line>)
    requires Convertible(subnetMasks, networks)
    ensures |ls| == |networks| && forall i :: 0 <= i < |networks| ==> ls[i] == NetworkLine(subnetMasks, networks[i])
  {
    if networks == [] then []
    else NetworkLines(subnetMasks, networks[..|networks| - 1]) + [NetworkLine(subnetMasks, networks[|networks| - 1])]
  }

  /** The files after converting `networks`, all of whose masks are known: both network files
      truncated to their banner, the directives in the output file, and the error lines appended
      to the host review file. */
  function NetworkFiles(subnetMasks: map<string, string>, networks: seq<Row>, fs: Files): Files
    requires Convertible(subnetMasks, networks)
  {
    RouteNetworkLines(NetworkLines(subnetMasks, networks), fs)
  }

  /** Where `convert_network_objects` puts the lines `ls`: the directives after the network output
      banner, nothing after the network review banner, the error lines appended to the host
      review file. */
  function RouteNetworkLines(ls: seq<Line>, fs: Files): Files
  {
    var truncated := fs[ConvertedNetworks := File(true, Directives(ls))][NetworkErrors := File(true, [])];
    AppendAll(truncated, HostErrors, Diversions(ls))
  }

  lemma RouteNetworkLinesSnoc(ls: seq<Line>, l: Line, fs: Files)
    ensures RouteNetworkLines(ls + [l], fs) ==
      match l
      case Directive(d) => Append(RouteNetworkLines(ls, fs), ConvertedNetworks, d)
      case Diverted(e) => Append(RouteNetworkLines(ls, fs), HostErrors, e)
  {
    LinesAppend(ls, l);
    AppendAllSnoc(fs[ConvertedNetworks := File(true, Directives(ls))][NetworkErrors := File(true, [])], HostErrors, Diversions(ls), l.text);
  }

  lemma AppendAllSnoc(fs: Files, c: Channel, texts: seq<string>, text: string)
    ensures AppendAll(fs, c, texts + [text]) == Append(AppendAll(fs, c, texts), c, text)
  {
    assert texts + [text] != [];
    if texts == [] {
      assert texts + [text] == [text];
    } else {
      assert Lines(fs, c) + (texts + [text]) == (Lines(fs, c) + texts) + [text];
    }
  }

  /** One more network row, whose mask is known, appends its line to the network output or the
      host review file. */
  lemma NetworkFilesStep(subnetMasks: map<string, string>, networks: seq<Row>, fs: Files, i: nat)
    requires i < |networks| && Convertible(subnetMasks, networks[..i])
    requires networks[i].ipv4.Some? && networks[i].mask.Some? && networks[i].mask.value in subnetMasks
    ensures Convertible(subnetMasks, networks[..i + 1])
    ensures var r := networks[i];
      var name := ReplaceWhitespace(r.name);
      var address := r.ipv4.value;
      var before := NetworkFiles(subnetMasks, networks[..i], fs);
      NetworkFiles(subnetMasks, networks[..i + 1], fs) ==
        if |address| > MaxAddressLength then Append(before, HostErrors, ErrorLine(r.index, name, address))
        else Append(before, ConvertedNetworks, AddressDirective(name, address, subnetMasks[r.mask.value]))
  {
    NetworkLinesSnoc(subnetMasks, networks, i);
    RouteNetworkLinesSnoc(NetworkLines(subnetMasks, networks[..i]), NetworkLine(subnetMasks, networks[i]), fs);
  }

  lemma NetworkLinesSnoc(subnetMasks: map<string, string>, networks: seq<Row>, i: nat)
    requires i < |networks| && Convertible(subnetMasks, networks[..i])
    requires networks[i].ipv4.Some? && networks[i].mask.Some? && networks[i].mask.value in subnetMasks
    ensures Convertible(subnetMasks, networks[..i + 1])
    ensures NetworkLines(subnetMasks, networks[..i + 1]) == NetworkLines(subnetMasks, networks[..i]) + [NetworkLine(subnetMasks, networks[i])]
  {
    assert networks[..i + 1][..i] == networks[..i];
    assert networks[..i + 1][i] == networks[i];
  }

  /** The files a run leaves, and the mask whose lookup raised `KeyError`, if one did. */
  datatype Outcome = Outcome(files: Files, unknownMask: Option<string>)

  /** `convert_network_objects` on `networks`: the rows before the first unknown mask are
      converted, and that mask stops the run. */
  function NetworkConversion(subnetMasks: map<string, string>, networks: seq<Row>, fs: Files): Outcome
    requires Addressed(networks) && Masked(networks)
  {
    var k := KnownMasks(subnetMasks, networks);
    Outcome(NetworkFiles(subnetMasks, networks[..k], fs), if k < |networks| then Some(networks[k].mask.value) else None)
  }

  /** The first `k` masks are known and the next one, if any, is not: the run stops after `k` rows. */
  lemma KnownMasksAt(subnetMasks: map<string, string>, networks: seq<Row>, k: nat)
    requires Masked(networks) && k <= |networks| && Convertible(subnetMasks, networks[..k])
    requires k < |networks| ==> networks[k].mask.value !in subnetMasks
    ensures KnownMasks(subnetMasks, networks) == k
  {
  }

  /** `convert_network_objects`, for an object whose `subnet_masks` is `subnetMasks`. */
  method ConvertNetworkObjects(subnetMasks: map<string, string>, networks: seq<Row>, fs: Files)
    returns (out: Files, unknownMask: Option<string>)
    requires Addressed(networks) && Masked(networks)
    ensures Outcome(out, unknownMask) == NetworkConversion(subnetMasks, networks, fs)
  {
    out := Truncate(fs, ConvertedNetworks);
    out := Truncate(out, NetworkErrors);
    unknownMask := None;
    assert networks[..0] == [];
    for i := 0 to |networks|
      invariant Convertible(subnetMasks, networks[..i])
      invariant out == NetworkFiles(subnetMasks, networks[..i], fs)
    {
      var name := ReplaceWhitespace(networks[i].name);
      var address := networks[i].ipv4.value;
      var cidr := Lookup(subnetMasks, networks[i].mask.value);
      if cidr.None? {
        unknownMask := networks[i].mask;
        KnownMasksAt(subnetMasks, networks, i);
        return;
      }
      NetworkFilesStep(subnetMasks, networks, fs, i);
      if |address| > MaxAddressLength {
        out := Append(out, HostErrors, ErrorLine(networks[i].index, name, address));
        continue;
      }
      out := Append(out, ConvertedNetworks, AddressDirective(name, address, cidr.value));
    }
    assert networks[..|networks|] == networks;
    KnownMasksAt(subnetMasks, networks, |networks|);
  }

  lemma NetworkLinesDistinguishable(subnetMasks: map<string, string>, networks: seq<Row>)
    requires Convertible(subnetMasks, networks)
    ensures Distinguishable(NetworkLines(subnetMasks, networks))
  {
    var ls := NetworkLines(subnetMasks, networks);
    forall i | 0 <= i < |ls| ensures ls[i].text != [] && (ls[i].Directive? <==> ls[i].text[0] == 's') {
      var r := networks[i];
      ErrorLineStartsWithDigit(r.index, ReplaceWhitespace(r.name), r.ipv4.value);
    }
  }

  /** Where the lines of a network conversion go: directives to the network output file, error
      lines after what the host review file already held, nothing to the network review file. */
  lemma NetworkFilesLines(subnetMasks: map<string, string>, networks: seq<Row>, fs: Files)
    requires Convertible(subnetMasks, networks)
    ensures var out := NetworkFiles(subnetMasks, networks, fs);
      var ls := NetworkLines(subnetMasks, networks);
      Lines(out, ConvertedNetworks) == Directives(ls) && Lines(out, NetworkErrors) == []
      && Lines(out, HostErrors) == Lines(fs, HostErrors) + Diversions(ls)
  {
  }

  /** The network converter writes only the network files and the host review file, and what it
      leaves in them depends only on what the host review file held before. */
  lemma NetworkFilesFrame(subnetMasks: map<string, string>, networks: seq<Row>, fs: Files, gs: Files)
    requires Convertible(subnetMasks, networks)
    ensures forall c :: c !in {ConvertedNetworks, NetworkErrors, HostErrors} ==>
      FileOf(NetworkFiles(subnetMasks, networks, fs), c) == FileOf(fs, c)
    ensures FileOf(fs, HostErrors) == FileOf(gs, HostErrors) ==>
      forall c :: c in {ConvertedNetworks, NetworkErrors, HostErrors} ==>
        FileOf(NetworkFiles(subnetMasks, networks, fs), c) == FileOf(NetworkFiles(subnetMasks, networks, gs), c)
  {
  }

  /** With every mask known, each network row yields exactly one line: a directive carrying its
      CIDR suffix, or an error line appended to the host review file. The network review file
      holds nothing after its banner. */
  lemma NetworkRowRouted(subnetMasks: map<string, string>, networks: seq<Row>, fs: Files, i: nat)
    requires Convertible(subnetMasks, networks) && i < |networks|
    ensures var out := NetworkFiles(subnetMasks, networks, fs);
      |Lines(out, ConvertedNetworks)| + |Lines(out, HostErrors)| == |networks| + |Lines(fs, HostErrors)|
      && Lines(out, NetworkErrors) == []
    ensures var out := NetworkFiles(subnetMasks, networks, fs);
      var r := networks[i];
      var name := ReplaceWhitespace(r.name);
      var d := AddressDirective(name, r.ipv4.value, subnetMasks[r.mask.value]);
      var e := ErrorLine(r.index, name, r.ipv4.value);
      var review := Lines(out, HostErrors)[|Lines(fs, HostErrors)|..];
      if |r.ipv4.value| <= MaxAddressLength
      then d in Lines(out, ConvertedNetworks) && d !in review
      else e in review && e !in Lines(out, ConvertedNetworks)
  {
    var ls := NetworkLines(subnetMasks, networks);
    LinesSplit(ls);
    NetworkLinesDistinguishable(subnetMasks, networks);
    OutputAndReviewDisjoint(ls);
    NetworkFilesLines(subnetMasks, networks, fs);
    assert ls[i] in ls;
    var out := NetworkFiles(subnetMasks, networks, fs);
    assert Lines(out, HostErrors)[|Lines(fs, HostErrors)|..] == Diversions(ls);
  }

  /** With the constructor's dictionary, the directive of a network row whose mask has `n` leading
      ones names the object by its normalised name as one field and ends in `/n`. */
  lemma NetworkDirectiveFields(r: Row, n: nat)
    requires r.ipv4.Some? && r.mask.Some? && 8 <= n <= 32 && r.mask.value == MaskOfLength(n)
    requires |r.ipv4.value| <= MaxAddressLength
    ensures r.mask.value in SubnetMasks
    ensures NetworkLine(SubnetMasks, r) == Directive(AddressDirective(ReplaceWhitespace(r.name), r.ipv4.value, "/" + NatToString(n)))
    ensures var d := NetworkLine(SubnetMasks, r).text;
      |d| >= 12 && Token(d[12..]) == ReplaceWhitespace(r.name)
  {
    assert ConvertCidr(r.mask.value) == Some("/" + NatToString(n));
    ReplaceWhitespaceShape(r.name);
    AddressDirectiveName(ReplaceWhitespace(r.name), r.ipv4.value, "/" + NatToString(n));
  }

  /** An unknown mask stops the run at its row, even when that row's address is too long and
      would otherwise have been diverted: the row leaves no line anywhere, and no later row is
      converted. */
  lemma UnknownMaskStopsRun(subnetMasks: map<string, string>, networks: seq<Row>, fs: Files, k: nat)
    requires Addressed(networks) && Masked(networks) && k < |networks|
    requires Convertible(subnetMasks, networks[..k]) && networks[k].mask.value !in subnetMasks
    ensures var o := NetworkConversion(subnetMasks, networks, fs);
      o.unknownMask == Some(networks[k].mask.value) && o.files == NetworkFiles(subnetMasks, networks[..k], fs)
    ensures var o := NetworkConversion(subnetMasks, networks, fs);
      |Lines(o.files, ConvertedNetworks)| + |Lines(o.files, HostErrors)| == k + |Lines(fs, HostErrors)|
  {
    KnownMasksAt(subnetMasks, networks, k);
    LinesSplit(NetworkLines(subnetMasks, networks[..k]));
    NetworkFilesLines(subnetMasks, networks[..k], fs);
  }

  /** With the constructor's dictionary, a single network row with a long address and a mask
      other than the 25 contiguous ones adds nothing to the host review file: the lookup comes
      before the length check. */
  lemma LookupBeforeLengthCheck(r: Row, fs: Files)
    requires r.ipv4.Some? && r.mask.Some? && |r.ipv4.value| > MaxAddressLength
    requires r.mask.value !in PrefixMasks()
    ensures var o := NetworkConversion(SubnetMasks, [r], fs);
      o.unknownMask == Some(r.mask.value) && FileOf(o.files, HostErrors) == FileOf(fs, HostErrors)
  {
    assert ConvertCidr(r.mask.value).None?;
    UnknownMaskStopsRun(SubnetMasks, [r], fs, 0);
  }

  // ---------------------------------------------------------------- services

  /** Every row has a Port value, as `get_port_objects` guarantees. */
  predicate Ported(rows: seq<Row>)
  {
    forall i :: 0 <= i < |rows| ==> rows[i].port.Some?
  }

  /** The directive of one service row: the normalised name, protocol `tcp` and the port text. */
  function PortLine(r: Row): string
    requires r.port.Some?
  {
    ServiceDirective(ReplaceWhitespace(r.name), ServiceProtocol, r.port.value)
  }

  function PortLines(ports: seq<Row>): (texts: seq<string>)
    requires Ported(ports)
    ensures |texts| == |ports| && forall i :: 0 <= i < |ports| ==> texts[i] == PortLine(ports[i])
  {
    if ports == [] then [] else PortLines(ports[..|ports| - 1]) + [PortLine(ports[|ports| - 1])]
  }

  /** The files after `convert_port_objects` on `ports`: one directive per row after the banner,
      and a review file that holds its banner only. */
  function PortConversion(ports: seq<Row>, fs: Files): Files
    requires Ported(ports)
  {
    fs[ConvertedPorts := File(true, PortLines(ports))][PortErrors := File(true, [])]
  }

  lemma PortConversionStep(ports: seq<Row>, fs: Files, i: nat)
    requires Ported(ports) && i < |ports|
    ensures PortConversion(ports[..i + 1], fs) == Append(PortConversion(ports[..i], fs), ConvertedPorts, PortLine(ports[i]))
  {
    assert ports[..i + 1][..i] == ports[..i];
  }

  method ConvertPortObjects(ports: seq<Row>, fs: Files) returns (out: Files)
    requires Ported(ports)
    ensures out == PortConversion(ports, fs)
  {
    out := Truncate(fs, ConvertedPorts);
    out := Truncate(out, PortErrors);
    assert ports[..0] == [];
    for i := 0 to |ports|
      invariant out == PortConversion(ports[..i], fs)
    {
      PortConversionStep(ports, fs, i);
      var name := ReplaceWhitespace(ports[i].name);
      var port := ports[i].port.value;
      var protocol := ServiceProtocol;
      out := Append(out, ConvertedPorts, ServiceDirective(name, protocol, port));
    }
    assert ports[..|ports|] == ports;
  }

  /** Every service row becomes a directive, in row order, naming the object by its normalised
      name as one field, with protocol `tcp`; nothing is diverted. */
  lemma PortRowsAllConverted(ports: seq<Row>, fs: Files, i: nat)
    requires Ported(ports) && i < |ports|
    ensures var out := PortConversion(ports, fs);
      |Lines(out, ConvertedPorts)| == |ports| && Lines(out, PortErrors) == []
    ensures Lines(PortConversion(ports, fs), ConvertedPorts)[i]
      == ServiceDirective(ReplaceWhitespace(ports[i].name), "tcp", ports[i].port.value)
    ensures var d := Lines(PortConversion(ports, fs), ConvertedPorts)[i];
      |d| >= 12 && Token(d[12..]) == ReplaceWhitespace(ports[i].name)
  {
    ReplaceWhitespaceShape(ports[i].name);
    ServiceDirectiveName(ReplaceWhitespace(ports[i].name), ServiceProtocol, ports[i].port.value);
  }

  // ---------------------------------------------------------------- reruns

  /** The two sets of files are the same. */
  predicate SameFiles(fs: Files, gs: Files)
  {
    forall c :: FileOf(fs, c) == FileOf(gs, c)
  }

  /** `convert_host_objects` truncates its files first: what it leaves in them does not depend on
      what was on disk, and running it twice leaves what running it once does. */
  lemma HostRerun(hosts: seq<Row>, fs: Files, gs: Files)
    requires Addressed(hosts)
    ensures FileOf(HostConversion(hosts, fs), ConvertedHosts) == FileOf(HostConversion(hosts, gs), ConvertedHosts)
    ensures FileOf(HostConversion(hosts, fs), HostErrors) == FileOf(HostConversion(hosts, gs), HostErrors)
    ensures HostConversion(hosts, HostConversion(hosts, fs)) == HostConversion(hosts, fs)
  {
  }

  /** `convert_port_objects` truncates its files first: what it leaves in them does not depend on
      what was on disk, and running it twice leaves what running it once does. */
  lemma PortRerun(ports: seq<Row>, fs: Files, gs: Files)
    requires Ported(ports)
    ensures FileOf(PortConversion(ports, fs), ConvertedPorts) == FileOf(PortConversion(ports, gs), ConvertedPorts)
    ensures FileOf(PortConversion(ports, fs), PortErrors) == FileOf(PortConversion(ports, gs), PortErrors)
    ensures PortConversion(ports, PortConversion(ports, fs)) == PortConversion(ports, fs)
  {
  }

  /** After the host converter, the network converter leaves the same host and network files
      whatever was on disk before the host converter ran. */
  lemma HostThenNetworkIndependent(subnetMasks: map<string, string>, hosts: seq<Row>, networks: seq<Row>, fs: Files, gs: Files)
    requires Addressed(hosts) && Convertible(subnetMasks, networks)
    ensures var o := NetworkFiles(subnetMasks, networks, HostConversion(hosts, fs));
      var p := NetworkFiles(subnetMasks, networks, HostConversion(hosts, gs));
      forall c :: c in {ConvertedHosts, HostErrors, ConvertedNetworks, NetworkErrors} ==> FileOf(o, c) == FileOf(p, c)
  {
    var h, g := HostConversion(hosts, fs), HostConversion(hosts, gs);
    assert FileOf(h, HostErrors) == FileOf(g, HostErrors);
    assert FileOf(h, ConvertedHosts) == FileOf(g, ConvertedHosts);
    NetworkFilesFrame(subnetMasks, networks, h, g);
  }

  /** A whole run converts hosts, then networks, then services unless a mask was unknown. When no
      mask is unknown it leaves the same six files whatever was on disk before, because the host
      converter truncates the host review file before the network converter appends to it; when
      one is, the four host and network files are still the same, and the service output file is
      the one an earlier run left. */
  lemma RunIndependentOfEarlierFiles(subnetMasks: map<string, string>, hosts: seq<Row>, networks: seq<Row>, ports: seq<Row>, fs: Files, gs: Files)
    requires Addressed(hosts) && Addressed(networks) && Masked(networks) && Ported(ports)
    ensures var o := NetworkConversion(subnetMasks, networks, HostConversion(hosts, fs));
      var p := NetworkConversion(subnetMasks, networks, HostConversion(hosts, gs));
      o.unknownMask == p.unknownMask
      && (o.unknownMask.None? ==> SameFiles(PortConversion(ports, o.files), PortConversion(ports, p.files)))
      && (o.unknownMask.Some? ==> forall c :: c in {ConvertedHosts, HostErrors, ConvertedNetworks, NetworkErrors} ==> FileOf(o.files, c) == FileOf(p.files, c))
      && (o.unknownMask.Some? ==> FileOf(o.files, ConvertedPorts) == FileOf(fs, ConvertedPorts))
  {
    var k := KnownMasks(subnetMasks, networks);
    var h, g := HostConversion(hosts, fs), HostConversion(hosts, gs);
    HostThenNetworkIndependent(subnetMasks, hosts, networks[..k], fs, gs);
    NetworkFilesFrame(subnetMasks, networks[..k], h, g);
    NetworkFilesFrame(subnetMasks, networks[..k], g, h);
    var o, p := NetworkFiles(subnetMasks, networks[..k], h), NetworkFiles(subnetMasks, networks[..k], g);
    if k == |networks| {
      forall c ensures FileOf(PortConversion(ports, o), c) == FileOf(PortConversion(ports, p), c) {
        if c !in {ConvertedPorts, PortErrors} {
          assert c in {ConvertedHosts, HostErrors, ConvertedNetworks, NetworkErrors} by {
            match c
            case ConvertedHosts =>
            case HostErrors =>
            case ConvertedNetworks =>
            case NetworkErrors =>
          }
          assert FileOf(PortConversion(ports, o), c) == FileOf(o, c);
          assert FileOf(PortConversion(ports, p), c) == FileOf(p, c);
        }
      }
    }
  }

  /** Running `convert_network_objects` on its own twice repeats its error lines in the host
      review file, which it never truncates. */
  lemma NetworkRerunRepeatsErrors(subnetMasks: map<string, string>, networks: seq<Row>, fs: Files)
    requires Convertible(subnetMasks, networks)
    ensures var once := NetworkFiles(subnetMasks, networks, fs);
      var errors := Diversions(NetworkLines(subnetMasks, networks));
      Lines(NetworkFiles(subnetMasks, networks, once), HostErrors) == Lines(fs, HostErrors) + errors + errors
  {
    NetworkFilesLines(subnetMasks, networks, fs);
    NetworkFilesLines(subnetMasks, networks, NetworkFiles(subnetMasks, networks, fs));
  }
}
