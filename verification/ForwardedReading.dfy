/** What a printed Forwarded header is read as, and when it is refused for conflicting values. */
module ForwardedReading {
  import opened Text
  import opened ForwardedHeader

  lemma {:induction false} MeaningAt<A>(ip: string -> Option<A>, es: seq<Element>, i: nat)
    requires i < |es| && Meanings(ip, es).Some?
    ensures var entries := Meanings(ip, es).value;
      |entries| == |es| && Meaning(ip, es[i]) == Some(entries[i])
  {
    hide Meaning;
    var n := |es| - 1;
    if n > 0 { MeaningAt(ip, es[..n], if i < n then i else 0); }
  }

  lemma {:induction false} ChainAt<A>(entries: seq<Entry<A>>, i: nat)
    requires i < |entries|
    ensures Chain(entries)[i] == entries[i].address
  {
    var n := |entries| - 1;
    if i < n { ChainAt(entries[..n], i); }
  }

  lemma {:induction false} HostIsListed<A>(entries: seq<Entry<A>>, i: nat)
    requires i < |entries| && entries[i].host.Some?
    ensures entries[i].host.value in Hosts(entries)
  {
    var n := |entries| - 1;
    if i < n { HostIsListed(entries[..n], i); }
  }

  lemma {:induction false} SchemeIsListed<A>(entries: seq<Entry<A>>, i: nat)
    requires i < |entries| && entries[i].scheme.Some?
    ensures entries[i].scheme.value in Schemes(entries)
  {
    var n := |entries| - 1;
    if i < n { SchemeIsListed(entries[..n], i); }
  }

  lemma {:induction false} ListedHost<A>(entries: seq<Entry<A>>, host: Host) returns (i: nat)
    requires host in Hosts(entries)
    ensures i < |entries| && entries[i].host == Some(host)
  {
    var n := |entries| - 1;
    if entries[n].host == Some(host) { i := n; } else { i := ListedHost(entries[..n], host); }
  }

  lemma {:induction false} ListedScheme<A>(entries: seq<Entry<A>>, scheme: string) returns (i: nat)
    requires scheme in Schemes(entries)
    ensures i < |entries| && entries[i].scheme == Some(scheme)
  {
    var n := |entries| - 1;
    if entries[n].scheme == Some(scheme) { i := n; } else { i := ListedScheme(entries[..n], scheme); }
  }

  /** Two elements state schemes that differ in lower case. */
  ghost predicate SchemesConflict(es: seq<Element>) {
    exists i, j :: 0 <= i < |es| && 0 <= j < |es| && es[i].proto.Some? && es[j].proto.Some?
                   && Lower(es[i].proto.value.text) != Lower(es[j].proto.value.text)
  }

  /** Two elements state hosts whose texts differ in lower case. */
  ghost predicate HostsConflict(es: seq<Element>) {
    exists i, j :: 0 <= i < |es| && 0 <= j < |es| && es[i].host.Some? && es[j].host.Some?
                   && Lower(es[i].host.value.text) != Lower(es[j].host.value.text)
  }

  /** The address of every element in order, and the scheme and the host that the elements state. */
  ghost predicate ReadsAs<A(!new)>(ip: string -> Option<A>, es: seq<Element>, r: Reading<A>) {
    && |r.chain| == |es|
    && (forall i :: 0 <= i < |es| ==> ParseAddress(ip, Show(es[i].node)) == Some(r.chain[i]))
    && (r.scheme.None? <==> forall i :: 0 <= i < |es| ==> es[i].proto.None?)
    && (forall i :: 0 <= i < |es| && es[i].proto.Some? ==> r.scheme == Some(Lower(es[i].proto.value.text)))
    && (r.host.None? <==> forall i :: 0 <= i < |es| ==> es[i].host.None?)
    && (r.host.Some? ==> exists i :: 0 <= i < |es| && es[i].host.Some? && ParseHost(Show(es[i].host.value)) == r.host)
    && (forall i :: 0 <= i < |es| && es[i].host.Some? ==> r.host.value.serialized == Lower(es[i].host.value.text))
  }

  lemma MeaningFields<A>(ip: string -> Option<A>, e: Element)
    requires WritableElement(e) && Meaning(ip, e).Some?
    ensures var m := Meaning(ip, e).value;
      && Some(m.address) == ParseAddress(ip, Show(e.node))
      && m.scheme == (if e.proto.Some? then Some(Lower(e.proto.value.text)) else None)
      && (m.host.Some? <==> e.host.Some?)
      && (e.host.Some? ==> m.host == ParseHost(Show(e.host.value)))
      && (e.host.Some? ==> m.host.value.serialized == Lower(e.host.value.text))
  {
    hide ParseAddress, Unquote, ParseAuthority, Lower;
    if e.proto.Some? { WritableIsUnquoted(e.proto.value); }
    if e.host.Some? {
      WritableIsUnquoted(e.host.value);
      SerializedText(e.host.value.text);
    }
  }

  lemma SerializedText(text: string)
    ensures ParseAuthority(text).Some? ==> ParseAuthority(text).value.serialized == Lower(text)
  {
    hide Lower, Number, Digits;
  }

  /** The entries are what the elements mean, field by field. */
  ghost predicate EntriesOfElements<A(!new)>(ip: string -> Option<A>, es: seq<Element>, entries: seq<Entry<A>>) {
    && |entries| == |es|
    && (forall i :: 0 <= i < |es| ==> ParseAddress(ip, Show(es[i].node)) == Some(entries[i].address))
    && (forall i :: 0 <= i < |es| ==>
          entries[i].scheme == (if es[i].proto.Some? then Some(Lower(es[i].proto.value.text)) else None))
    && (forall i :: 0 <= i < |es| ==> (entries[i].host.Some? <==> es[i].host.Some?))
    && (forall i :: 0 <= i < |es| && es[i].host.Some? ==>
          entries[i].host == ParseHost(Show(es[i].host.value))
          && entries[i].host.value.serialized == Lower(es[i].host.value.text))
  }

  lemma MeaningsAreEntries<A(!new)>(ip: string -> Option<A>, es: seq<Element>)
    requires |es| > 0 && Meanings(ip, es).Some? && forall i :: 0 <= i < |es| ==> WritableElement(es[i])
    ensures EntriesOfElements(ip, es, Meanings(ip, es).value)
  {
    hide Meanings, Meaning, ParseAddress, ParseHost, Show, Lower, WritableElement;
    var entries := Meanings(ip, es).value;
    MeaningAt(ip, es, 0);
    forall i | 0 <= i < |es|
      ensures Meaning(ip, es[i]) == Some(entries[i]) && ParseAddress(ip, Show(es[i].node)) == Some(entries[i].address)
      ensures entries[i].scheme == (if es[i].proto.Some? then Some(Lower(es[i].proto.value.text)) else None)
      ensures entries[i].host.Some? <==> es[i].host.Some?
      ensures es[i].host.Some? ==>
        entries[i].host == ParseHost(Show(es[i].host.value))
        && entries[i].host.value.serialized == Lower(es[i].host.value.text)
    {
      MeaningAt(ip, es, i);
      MeaningFields(ip, es[i]);
    }
  }

  /** Two listed values disagree. */
  ghost predicate Disagree(schemes: seq<string>, hosts: seq<Host>) {
    || (exists s, t :: s in schemes && t in schemes && s != t)
    || (exists h, k :: h in hosts && k in hosts && h.serialized != k.serialized)
  }

  lemma AgreedExactly<A>(chain: seq<A>, schemes: seq<string>, hosts: seq<Host>)
    ensures Agreed(chain, schemes, hosts).None? <==> Disagree(schemes, hosts)
    ensures Agreed(chain, schemes, hosts).Some? ==>
      Agreed(chain, schemes, hosts).value == Reading(chain, First(schemes), First(hosts))
  {
    if i :| 0 <= i < |schemes| && schemes[i] != schemes[0] { assert schemes[i] in schemes && schemes[0] in schemes; }
    if i :| 0 <= i < |hosts| && hosts[i].serialized != hosts[0].serialized {
      assert hosts[i] in hosts && hosts[0] in hosts;
    }
  }

  lemma ConflictsListed<A(!new)>(ip: string -> Option<A>, es: seq<Element>, entries: seq<Entry<A>>)
    requires EntriesOfElements(ip, es, entries)
    ensures Disagree(Schemes(entries), Hosts(entries)) <==> SchemesConflict(es) || HostsConflict(es)
  {
    hide Schemes, Hosts, ParseAddress, ParseHost, Show, Lower;
    SchemesOfEntries(entries);
    HostsOfEntries(entries);
    if i, j :| 0 <= i < |es| && 0 <= j < |es| && es[i].proto.Some? && es[j].proto.Some?
                   && Lower(es[i].proto.value.text) != Lower(es[j].proto.value.text) {
      SchemeIsListed(entries, i);
      SchemeIsListed(entries, j);
    }
    if i, j :| 0 <= i < |es| && 0 <= j < |es| && es[i].host.Some? && es[j].host.Some?
                   && Lower(es[i].host.value.text) != Lower(es[j].host.value.text) {
      HostIsListed(entries, i);
      HostIsListed(entries, j);
    }
  }

  lemma AgreedReading<A(!new)>(ip: string -> Option<A>, es: seq<Element>, entries: seq<Entry<A>>)
    requires EntriesOfElements(ip, es, entries) && !Disagree(Schemes(entries), Hosts(entries))
    ensures ReadsAs(ip, es, Reading(Chain(entries), First(Schemes(entries)), First(Hosts(entries))))
  {
    hide Schemes, Hosts, Chain, ParseAddress, ParseHost, Show, Lower;
    SchemesOfEntries(entries);
    HostsOfEntries(entries);
    var schemes, hosts := Schemes(entries), Hosts(entries);
    forall i | 0 <= i < |es|
      ensures Chain(entries)[i] == entries[i].address
      ensures es[i].proto.Some? ==> Lower(es[i].proto.value.text) in schemes
      ensures es[i].host.Some? ==> entries[i].host.value in hosts
    {
      ChainAt(entries, i);
      if es[i].proto.Some? { SchemeIsListed(entries, i); }
      if es[i].host.Some? { HostIsListed(entries, i); }
    }
    if schemes != [] { assert schemes[0] in schemes; }
    if hosts != [] { assert hosts[0] in hosts; }
  }

  /** Entries that mean elements are refused exactly for conflicting values, and otherwise read as stated. */
  lemma CombinedMeans<A(!new)>(ip: string -> Option<A>, es: seq<Element>)
    requires |es| > 0 && Meanings(ip, es).Some? && forall i :: 0 <= i < |es| ==> WritableElement(es[i])
    ensures var r := Combine(Meanings(ip, es).value);
      (r.None? <==> SchemesConflict(es) || HostsConflict(es)) && (r.Some? ==> ReadsAs(ip, es, r.value))
  {
    hide Meanings, Agreed, Disagree, SchemesConflict, HostsConflict, EntriesOfElements, ReadsAs, WritableElement;
    var entries := Meanings(ip, es).value;
    MeaningsAreEntries(ip, es);
    AgreedExactly(Chain(entries), Schemes(entries), Hosts(entries));
    ConflictsListed(ip, es, entries);
    if !Disagree(Schemes(entries), Hosts(entries)) { AgreedReading(ip, es, entries); }
  }

  lemma SchemesOfEntries<A>(entries: seq<Entry<A>>)
    ensures forall s :: s in Schemes(entries) ==> exists i :: 0 <= i < |entries| && entries[i].scheme == Some(s)
  {
    forall s | s in Schemes(entries) ensures exists i :: 0 <= i < |entries| && entries[i].scheme == Some(s) {
      var i := ListedScheme(entries, s);
    }
  }

  lemma HostsOfEntries<A>(entries: seq<Entry<A>>)
    ensures forall h :: h in Hosts(entries) ==> exists i :: 0 <= i < |entries| && entries[i].host == Some(h)
  {
    forall h | h in Hosts(entries) ensures exists i :: 0 <= i < |entries| && entries[i].host == Some(h) {
      var i := ListedHost(entries, h);
    }
  }

  /**
   * A printed header whose elements all mean something is refused exactly if two of them state different
   * schemes or hosts; otherwise its addresses are the chain, in order.
   */
  lemma ConflictsAreRefused<A(!new)>(ip: string -> Option<A>, es: seq<Element>, pad: string)
    requires |es| > 0 && Padding(pad) && forall i :: 0 <= i < |es| ==> SaneElement(es[i]) && Meaning(ip, es[i]).Some?
    ensures var r := ParseHeader(ip, PrintHeader(es, pad));
      (r.None? <==> SchemesConflict(es) || HostsConflict(es)) && (r.Some? ==> ReadsAs(ip, es, r.value))
  {
    hide ParseHeader, PrintHeader, Combine, SaneElement, Meaning, ReadsAs, SchemesConflict, HostsConflict,
      WritableElement;
    HeaderIsRead(ip, es, pad);
    AllMean(ip, es);
    forall i | 0 <= i < |es| ensures WritableElement(es[i]) { SaneIsWritable(es[i]); }
    CombinedMeans(ip, es);
  }

  lemma {:induction false} AllMean<A>(ip: string -> Option<A>, es: seq<Element>)
    requires forall i :: 0 <= i < |es| ==> Meaning(ip, es[i]).Some?
    ensures Meanings(ip, es).Some?
  {
    hide Meaning;
    if es != [] { AllMean(ip, es[..|es| - 1]); }
  }

  // ----- what single values mean, and when they are refused -----

  /** Where the port of an authority starts, if it has exactly one colon. */
  lemma OneColon(host: string, port: string)
    requires ':' !in host && ':' !in port
    ensures OnlyColon(host + ":" + port) == Some(|host|)
  {
    hide Find;
    FindFirst(host, ':', port);
    var text := host + ":" + port;
    assert text == host + [':'] + port && text[|host| + 1..] == port;
  }

  ghost predicate SingleColon(text: string) {
    exists host, port :: ':' !in host && ':' !in port && text == host + ":" + port
  }

  lemma OnlyColonMeans(text: string)
    ensures OnlyColon(text).Some? <==> SingleColon(text)
  {
    hide Find;
    if OnlyColon(text).Some? {
      var k := OnlyColon(text).value;
      assert text == text[..k] + ":" + text[k + 1..];
    }
    if host, port :| ':' !in host && ':' !in port && text == host + ":" + port { OneColon(host, port); }
  }

  /** A port is a colon with digits; nothing is no port. */
  predicate PortSuffix(suffix: string) {
    suffix == "" || (suffix[0] == ':' && Digits(suffix[1..]))
  }

  /** A bracketed node is the address in the brackets, if what follows is a port or nothing. */
  lemma BracketedNodeMeans<A>(ip: string -> Option<A>, name: string, suffix: string)
    requires ']' !in name
    ensures ParseNode(ip, "[" + name + "]" + suffix) == if PortSuffix(suffix) then ip(name) else None
    ensures ParseNode(ip, "[" + name) == None
  {
    hide Find, Digits;
    BracketsAreFound(name, suffix);
    var text := "[" + name + "]" + suffix;
    NotUnknown(text);
    NotUnknown("[" + name);
    assert ']' !in "[" + name;
  }

  /** Obfuscated nodes are refused; a port after a single colon is dropped; anything else is parsed as it is. */
  lemma PlainNodeMeans<A>(ip: string -> Option<A>, text: string)
    requires text == "" || text[0] != '['
    ensures Lower(text) == "unknown" || "_" <= text ==> ParseNode(ip, text) == None
    ensures Lower(text) != "unknown" && !("_" <= text) && !SingleColon(text) ==> ParseNode(ip, text) == ip(text)
  {
    OnlyColonMeans(text);
    hide OnlyColon, Lower, Digits;
  }

  lemma PortNodeMeans<A>(ip: string -> Option<A>, host: string, port: string)
    requires ':' !in host && ':' !in port && !("[" <= host)
    ensures var text := host + ":" + port;
      Lower(text) != "unknown" && !("_" <= text) ==> ParseNode(ip, text) == ip(if Digits(port) then host else text)
  {
    hide OnlyColon, Lower, Digits;
    var text := host + ":" + port;
    OneColon(host, port);
    assert text[|host| + 1..] == port && text[..|host|] == host && (host != "" ==> text[0] == host[0]);
  }

  /** A host name is refused when it is empty or has white space in it, a port when it is not from 1 to 65535. */
  lemma CheckedHostMeans(name: string, port: Option<nat>, text: string)
    ensures CheckedHost(name, port, text) ==
      if name == "" || (exists c :: c in name && Blank(c)) || port == Some(0) || (port.Some? && port.value > 65535)
        then None
      else Some(Host(Lower(name), port, Lower(text)))
  {
    hide Blank, Lower;
    if c :| c in name && Blank(c) { var i :| 0 <= i < |name| && name[i] == c; }
    if i :| 0 <= i < |name| && Blank(name[i]) { assert name[i] in name; }
  }

  /** The name and the port of an authority, with and without brackets; every other form is refused. */
  lemma AuthorityMeans(name: string, suffix: string)
    ensures ']' !in name ==>
      ParseAuthority("[" + name) == None
      && ParseAuthority("[" + name + "]" + suffix) ==
           if !PortSuffix(suffix) then None
           else CheckedHost(name, if suffix == "" then None else Some(Number(suffix[1..])), "[" + name + "]" + suffix)
    ensures !("[" <= name) && !SingleColon(name) ==> ParseAuthority(name) == CheckedHost(name, None, name)
    ensures !("[" <= name) && ':' !in name && ':' !in suffix && name + ":" + suffix != "" ==>
      ParseAuthority(name + ":" + suffix) ==
        if Digits(suffix) then CheckedHost(name, Some(Number(suffix)), name + ":" + suffix) else None
  {
    hide Find, Digits, Number, CheckedHost, OnlyColon;
    OnlyColonMeans(name);
    if ']' !in name {
      BracketsAreFound(name, suffix);
      assert ']' !in "[" + name;
    }
    if ':' !in name && ':' !in suffix {
      OneColon(name, suffix);
      var text := name + ":" + suffix;
      assert text[..|name|] == name && text[|name| + 1..] == suffix && (name != "" ==> text[0] == name[0]);
    }
  }

  /** A value is refused when it is quoted at one end only or has an invisible character; a host also for separators. */
  lemma ValueRefusals(value: string)
    ensures (exists c :: c in value && (c < '!' || c == '\U{7f}')) ==> Unquote(value) == None
    ensures value != "" && (value[0] == '"') != (value[|value| - 1] == '"') ==> Unquote(value) == None
    ensures value == "\"" ==> Unquote(value) == None
    ensures value != "" && value[0] != '"' && (exists c :: c in value && c in "/?#@") ==> ParseHost(value) == None
  {
    if c :| c in value && (c < '!' || c == '\U{7f}') {
      var i :| 0 <= i < |value| && value[i] == c;
      if value[0] == '"' && |value| >= 2 && value[|value| - 1] == '"' { assert value[1..|value| - 1][i - 1] == c; }
    }
    hide ParseAuthority;
    if value != "" && value[0] != '"' {
      if c :| c in value && c in "/?#@" { var i :| 0 <= i < |value| && value[i] == c; }
    }
  }

  /** The decimal digits of a number. */
  function Decimal(n: nat): string {
    if n < 10 then ["0123456789"[n]] else Decimal(n / 10) + ["0123456789"[n % 10]]
  }

  /** Digits are exactly the ten, and a printed number is read back. */
  lemma DigitsMean(s: string)
    ensures Digits(s) <==> s != "" && forall c :: c in s ==> c in "0123456789"
  {
    forall c: char ensures '0' <= c <= '9' <==> c in "0123456789" { TenDigits(c); }
    forall i | 0 <= i < |s| ensures s[i] in s { }
  }

  lemma TenDigits(c: char)
    ensures '0' <= c <= '9' <==> c in "0123456789"
  {
    var digits := "0123456789";
    assert digits[0] == '0' && digits[1] == '1' && digits[2] == '2' && digits[3] == '3' && digits[4] == '4';
    assert digits[5] == '5' && digits[6] == '6' && digits[7] == '7' && digits[8] == '8' && digits[9] == '9';
  }

  lemma {:induction false} NumberIsRead(n: nat)
    ensures Digits(Decimal(n)) && Number(Decimal(n)) == n
  {
    LastDigit(n % 10);
    if n >= 10 {
      NumberIsRead(n / 10);
      var front, text := Decimal(n / 10), Decimal(n);
      assert text[..|text| - 1] == front && text[|text| - 1] == "0123456789"[n % 10];
    } else {
      assert Decimal(n)[..0] == "" && n % 10 == n;
    }
  }

  lemma LastDigit(d: nat)
    requires d < 10
    ensures "0123456789"[d] as int == '0' as int + d && '0' <= "0123456789"[d] <= '9'
  {
    var digits := "0123456789";
    assert digits[0] == '0' && digits[1] == '1' && digits[2] == '2' && digits[3] == '3' && digits[4] == '4';
    assert digits[5] == '5' && digits[6] == '6' && digits[7] == '7' && digits[8] == '8' && digits[9] == '9';
  }

  /** A header with any character beyond ASCII is refused. */
  lemma BeyondAsciiIsRefused<A>(ip: string -> Option<A>, text: string, c: char)
    requires c in text && c as int > 127
    ensures ParseHeader(ip, text) == None
  {
    var i :| 0 <= i < |text| && text[i] == c;
  }

  // ----- parameters -----

  /** The name of a parameter: what stands before its first equals sign, stripped and in lower case. */
  function KeyOf(parameter: string): Option<string> {
    var sign := Find(parameter, '=');
    if sign.None? then None else Some(Lower(Strip(parameter[..sign.value])))
  }

  /** Every parameter has one of the four names, and no name twice. */
  ghost predicate SoundParameters(parts: seq<string>) {
    && (forall i :: 0 <= i < |parts| ==>
         KeyOf(parts[i]).Some? && KeyOf(parts[i]).value in {"for", "by", "proto", "host"})
    && (forall i, j :: 0 <= i < j < |parts| ==> KeyOf(parts[i]) != KeyOf(parts[j]))
  }

  /** The map gives every name the stripped text after its equals sign. */
  ghost predicate Gives(parts: seq<string>, m: map<string, string>) {
    && (forall key :: key in m <==> exists i :: 0 <= i < |parts| && KeyOf(parts[i]) == Some(key))
    && (forall i :: 0 <= i < |parts| && KeyOf(parts[i]).Some? ==>
          KeyOf(parts[i]).value in m && m[KeyOf(parts[i]).value] == ValueOf(parts[i]))
  }

  function ValueOf(parameter: string): string {
    var sign := Find(parameter, '=');
    if sign.None? then "" else Strip(parameter[sign.value + 1..])
  }

  /** Parameters are accepted exactly if they are sound, and then each name gives its value. */
  lemma {:induction false} ParametersExactly(parts: seq<string>)
    ensures ParametersOf(parts).Some? <==> SoundParameters(parts)
    ensures ParametersOf(parts).Some? ==> Gives(parts, ParametersOf(parts).value)
  {
    hide KeyOf, ValueOf, AddParameter;
    if parts != [] {
      var n := |parts| - 1;
      var front, last := parts[..n], parts[n];
      ParametersExactly(front);
      AddedExactly(ParametersOf(front), last);
      assert parts == front + [last];
      SoundSnoc(front, last);
      if SoundParameters(front) && KeyOf(last).Some? {
        var m := ParametersOf(front).value;
        KnownIsListed(front, m, last);
        if SoundParameters(parts) { GivesSnoc(front, m, last); }
      }
    }
  }

  lemma KnownIsListed(parts: seq<string>, m: map<string, string>, last: string)
    requires Gives(parts, m) && KeyOf(last).Some?
    ensures KeyOf(last).value in m <==> exists i :: 0 <= i < |parts| && KeyOf(parts[i]) == KeyOf(last)
  {
    hide KeyOf, ValueOf;
  }

  lemma SoundSnoc(parts: seq<string>, last: string)
    ensures SoundParameters(parts + [last]) <==>
      SoundParameters(parts) && KeyOf(last).Some? && KeyOf(last).value in {"for", "by", "proto", "host"}
      && forall i :: 0 <= i < |parts| ==> KeyOf(parts[i]) != KeyOf(last)
  {
    hide KeyOf;
    var more := parts + [last];
    assert more[|parts|] == last && forall i :: 0 <= i < |parts| ==> more[i] == parts[i];
  }

  lemma GivesSnoc(parts: seq<string>, m: map<string, string>, last: string)
    requires Gives(parts, m) && KeyOf(last).Some? && forall i :: 0 <= i < |parts| ==> KeyOf(parts[i]) != KeyOf(last)
    ensures Gives(parts + [last], m[KeyOf(last).value := ValueOf(last)])
  {
    hide KeyOf, ValueOf;
    var more := parts + [last];
    assert more[|parts|] == last && forall i :: 0 <= i < |parts| ==> more[i] == parts[i];
  }

  lemma AddedExactly(known: Option<map<string, string>>, parameter: string)
    ensures AddParameter(known, parameter) ==
      if known.None? || KeyOf(parameter).None? || KeyOf(parameter).value !in {"for", "by", "proto", "host"}
         || KeyOf(parameter).value in known.value then None
      else Some(known.value[KeyOf(parameter).value := ValueOf(parameter)])
  {
    hide Find, Strip, Lower;
  }

  // ----- the split -----

  /** A text without quoted pairs is split exactly when its quotes pair and no part is blank. */
  lemma SplitExactly(s: string, delimiter: char)
    requires delimiter != '"' && Dropped(s, false, false) == 0
    ensures QuoteState(s, false) ==> SplitSpec(s, delimiter).None?
    ensures !QuoteState(s, false) ==>
      Scan(s, delimiter, false, false).Some?
      && (SplitSpec(s, delimiter).Some? <==>
            forall part :: part in Scan(s, delimiter, false, false).value ==> Strip(part) != "")
  {
    ScanSucceeds(s, delimiter, false);
    hide Strip, Scan;
    if Scan(s, delimiter, false, false).Some? {
      var raw := Scan(s, delimiter, false, false).value;
      if "" in StripAll(raw) {
        var i :| 0 <= i < |raw| && StripAll(raw)[i] == "";
        assert raw[i] in raw;
      } else {
        forall part | part in raw ensures Strip(part) != "" {
          var i :| 0 <= i < |raw| && raw[i] == part;
          assert StripAll(raw)[i] in StripAll(raw);
        }
      }
    }
  }

  lemma {:induction false} ScanSucceeds(s: string, delimiter: char, quoted: bool)
    requires delimiter != '"' && Dropped(s, quoted, false) == 0
    ensures Scan(s, delimiter, quoted, false).Some? <==> !QuoteState(s, quoted)
  {
    if s != "" { ScanSucceeds(s[1..], delimiter, if s[0] == '"' then !quoted else quoted); }
  }
}
