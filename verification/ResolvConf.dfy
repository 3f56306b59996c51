/**
 The resolv.conf of a namespace: written from a DNS configuration, and read back line by line.
 */
module ResolvConf {
  import opened Wrappers
  import opened Text

  datatype DnsConfig = DnsConfig(servers: seq<string>, searchDomains: seq<string>, options: seq<string>)

  const NO_DNS := DnsConfig([], [], [])

  // ----- writing -----

  function Prefixed(prefix: string, items: seq<string>): seq<string> {
    seq(|items|, i requires 0 <= i < |items| => prefix + items[i])
  }

  function SearchLines(domains: seq<string>): seq<string> {
    if domains == [] then [] else ["search " + Join(domains, " ")]
  }

  function ConfigLines(c: DnsConfig): seq<string> {
    Prefixed("nameserver ", c.servers)
    + SearchLines(c.searchDomains)
    + Prefixed("options ", c.options)
  }

  lemma UnlinesOne(line: string)
    ensures Unlines([line]) == line + "\n"
  {
    assert [line][1..] == [];
    assert Unlines([line]) == line + "\n" + Unlines([]);
  }

  lemma OneLineMore(prefix: string, items: seq<string>, i: nat)
    requires i < |items|
    ensures Unlines(Prefixed(prefix, items[..i + 1]))
         == Unlines(Prefixed(prefix, items[..i])) + (prefix + items[i] + "\n")
  {
    var line := prefix + items[i];
    assert Prefixed(prefix, items[..i + 1]) == Prefixed(prefix, items[..i]) + [line];
    UnlinesConcat(Prefixed(prefix, items[..i]), [line]);
    UnlinesOne(line);
  }

  method WriteLines(content: string, prefix: string, items: seq<string>) returns (r: string)
    ensures r == content + Unlines(Prefixed(prefix, items))
  {
    r := content;
    for i := 0 to |items|
      invariant r == content + Unlines(Prefixed(prefix, items[..i]))
    {
      r := r + (prefix + items[i] + "\n");
      OneLineMore(prefix, items, i);
      assert content + (Unlines(Prefixed(prefix, items[..i])) + (prefix + items[i] + "\n"))
          == content + Unlines(Prefixed(prefix, items[..i])) + (prefix + items[i] + "\n");
    }
    assert items[..|items|] == items;
  }

  lemma ThreeParts(a: seq<string>, b: seq<string>, c: seq<string>)
    ensures Unlines(a + b + c) == "" + Unlines(a) + Unlines(b) + Unlines(c)
  {
    UnlinesConcat(a, b);
    UnlinesConcat(a + b, c);
  }

  method Write(c: DnsConfig) returns (content: string)
    ensures content == Unlines(ConfigLines(c))
  {
    content := WriteLines("", "nameserver ", c.servers);
    ghost var written := content;
    if c.searchDomains != [] {
      content := content + ("search " + Join(c.searchDomains, " ") + "\n");
      UnlinesOne("search " + Join(c.searchDomains, " "));
    }
    assert content == written + Unlines(SearchLines(c.searchDomains));
    content := WriteLines(content, "options ", c.options);
    ThreeParts(Prefixed("nameserver ", c.servers), SearchLines(c.searchDomains), Prefixed("options ", c.options));
  }

  // ----- reading -----

  function ReadLine(dns: DnsConfig, raw: string): DnsConfig {
    var line := Trim(raw);
    var server := StripPrefix(line, "nameserver ");
    var domains := StripPrefix(line, "search ");
    var option := StripPrefix(line, "options ");
    if server.Some? then dns.(servers := dns.servers + [Trim(server.value)])
    else if domains.Some? then dns.(searchDomains := SplitWhitespace(domains.value))
    else if option.Some? then dns.(options := dns.options + [Trim(option.value)])
    else dns
  }

  function ReadLines(lines: seq<string>, dns: DnsConfig): DnsConfig {
    if lines == [] then dns else ReadLines(lines[1..], ReadLine(dns, lines[0]))
  }

  method Read(content: string) returns (dns: DnsConfig)
    ensures dns == ReadLines(Lines(content), NO_DNS)
  {
    dns := NO_DNS;
    var lines := Lines(content);
    for i := 0 to |lines|
      invariant ReadLines(lines, NO_DNS) == ReadLines(lines[i..], dns)
    {
      var line := Trim(lines[i]);
      assert lines[i..][0] == lines[i] && lines[i..][1..] == lines[i + 1..];
      var server := StripPrefix(line, "nameserver ");
      var domains := StripPrefix(line, "search ");
      var option := StripPrefix(line, "options ");
      if server.Some? {
        dns := dns.(servers := dns.servers + [Trim(server.value)]);
      } else if domains.Some? {
        dns := dns.(searchDomains := SplitWhitespace(domains.value));
      } else if option.Some? {
        dns := dns.(options := dns.options + [Trim(option.value)]);
      }
    }
  }

  // ----- the format, line by line -----

  /** The lines written: a nameserver line per server, one search line if needed, an options line per option. */
  lemma WrittenLines(c: DnsConfig, k: nat)
    ensures var ls, ns := ConfigLines(c), |c.servers|;
            var search := if c.searchDomains == [] then 0 else 1;
            && |ls| == ns + search + |c.options|
            && (k < ns ==> ls[k] == "nameserver " + c.servers[k])
            && (c.searchDomains != [] ==> ls[ns] == "search " + Join(c.searchDomains, " "))
            && (k < |c.options| ==> ls[ns + search + k] == "options " + c.options[k])
  {
  }

  /** What one line does: a server or an option is added, the search list is replaced, anything else is ignored. */
  lemma LineRead(dns: DnsConfig, raw: string)
    ensures var line := Trim(raw);
            && ("nameserver " <= line ==> ReadLine(dns, raw) == dns.(servers := dns.servers + [Trim(line[11..])]))
            && ("search " <= line ==> ReadLine(dns, raw) == dns.(searchDomains := SplitWhitespace(line[7..])))
            && ("options " <= line ==> ReadLine(dns, raw) == dns.(options := dns.options + [Trim(line[8..])]))
            && (!("nameserver " <= line) && !("search " <= line) && !("options " <= line) ==>
                  ReadLine(dns, raw) == dns)
  {
    var line := Trim(raw);
    if "nameserver " <= line {
      assert line[0] == 'n';
    }
    if "search " <= line {
      assert line[0] == 's';
    }
    if "options " <= line {
      assert line[0] == 'o';
    }
  }

  // ----- round trip -----

  /** One value on one line: not empty, trimmed, without a line feed. */
  predicate OneLiner(s: string) {
    s != "" && Trimmed(s) && '\n' !in s
  }

  predicate Clean(c: DnsConfig) {
    && (forall s | s in c.servers :: OneLiner(s))
    && (forall d | d in c.searchDomains :: Word(d))
    && (forall o | o in c.options :: OneLiner(o))
  }

  lemma ConfigLineShape(prefix: string, s: string)
    requires prefix in {"nameserver ", "search ", "options "}
    requires OneLiner(s)
    ensures Trimmed(prefix + s) && '\n' !in prefix + s
    ensures StripPrefix(prefix + s, prefix) == Some(s)
  {
    assert (prefix + s)[|prefix + s| - 1] == s[|s| - 1];
    assert (prefix + s)[0] == prefix[0];
    assert (prefix + s)[|prefix|..] == s;
  }

  lemma {:induction false} ReadAppend(a: seq<string>, b: seq<string>, dns: DnsConfig)
    ensures ReadLines(a + b, dns) == ReadLines(b, ReadLines(a, dns))
    decreases |a|
  {
    if a == [] {
      assert a + b == b;
    } else {
      assert (a + b)[1..] == a[1..] + b;
      ReadAppend(a[1..], b, ReadLine(dns, a[0]));
    }
  }

  lemma PrefixedFirst(prefix: string, items: seq<string>, dns: DnsConfig)
    requires items != []
    ensures ReadLines(Prefixed(prefix, items), dns)
         == ReadLines(Prefixed(prefix, items[1..]), ReadLine(dns, prefix + items[0]))
  {
    assert Prefixed(prefix, items)[1..] == Prefixed(prefix, items[1..]);
  }

  lemma ReadServerLine(s: string, dns: DnsConfig)
    requires OneLiner(s)
    ensures ReadLine(dns, "nameserver " + s) == dns.(servers := dns.servers + [s])
  {
    ConfigLineShape("nameserver ", s);
  }

  lemma ReadOptionLine(s: string, dns: DnsConfig)
    requires OneLiner(s)
    ensures ReadLine(dns, "options " + s) == dns.(options := dns.options + [s])
  {
    ConfigLineShape("options ", s);
    var line := "options " + s;
    assert line[0] == 'o';
    assert StripPrefix(line, "nameserver ").None? && StripPrefix(line, "search ").None?;
  }

  lemma Regrouped<T>(a: seq<T>, items: seq<T>)
    requires items != []
    ensures a + [items[0]] + items[1..] == a + items
  {
  }

  lemma {:induction false} ReadServers(items: seq<string>, dns: DnsConfig)
    requires forall s | s in items :: OneLiner(s)
    ensures ReadLines(Prefixed("nameserver ", items), dns) == dns.(servers := dns.servers + items)
    decreases |items|
  {
    if items == [] {
      assert dns.servers + items == dns.servers;
    } else {
      PrefixedFirst("nameserver ", items, dns);
      ReadServerLine(items[0], dns);
      ReadServers(items[1..], dns.(servers := dns.servers + [items[0]]));
      Regrouped(dns.servers, items);
    }
  }

  lemma {:induction false} ReadOptions(items: seq<string>, dns: DnsConfig)
    requires forall s | s in items :: OneLiner(s)
    ensures ReadLines(Prefixed("options ", items), dns) == dns.(options := dns.options + items)
    decreases |items|
  {
    if items == [] {
      assert dns.options + items == dns.options;
    } else {
      PrefixedFirst("options ", items, dns);
      ReadOptionLine(items[0], dns);
      ReadOptions(items[1..], dns.(options := dns.options + [items[0]]));
      Regrouped(dns.options, items);
    }
  }

  lemma ReadSearch(domains: seq<string>, dns: DnsConfig)
    requires domains != [] && forall d | d in domains :: Word(d)
    ensures ReadLines(["search " + Join(domains, " ")], dns) == dns.(searchDomains := domains)
    ensures Trimmed("search " + Join(domains, " ")) && '\n' !in "search " + Join(domains, " ")
  {
    JoinTrimmed(domains);
    ConfigLineShape("search ", Join(domains, " "));
    SplitJoin(domains);
    var line := "search " + Join(domains, " ");
    assert [line][1..] == [];
    assert ReadLines([line], dns) == ReadLines([], ReadLine(dns, line));
  }

  lemma PrefixedClean(prefix: string, items: seq<string>)
    requires prefix in {"nameserver ", "options "}
    requires forall s | s in items :: OneLiner(s)
    ensures forall l | l in Prefixed(prefix, items) :: '\n' !in l && Trimmed(l)
  {
    forall l | l in Prefixed(prefix, items) ensures '\n' !in l && Trimmed(l) {
      var i :| 0 <= i < |items| && Prefixed(prefix, items)[i] == l;
      assert items[i] in items;
      ConfigLineShape(prefix, items[i]);
    }
  }

  lemma ConfigLinesClean(c: DnsConfig)
    requires Clean(c)
    ensures forall l | l in ConfigLines(c) :: '\n' !in l && Trimmed(l)
  {
    PrefixedClean("nameserver ", c.servers);
    PrefixedClean("options ", c.options);
    if c.searchDomains != [] {
      ReadSearch(c.searchDomains, NO_DNS);
    }
  }

  lemma ReadConfigLines(c: DnsConfig)
    requires Clean(c)
    ensures ReadLines(ConfigLines(c), NO_DNS) == c
  {
    var servers, options := Prefixed("nameserver ", c.servers), Prefixed("options ", c.options);
    var search := SearchLines(c.searchDomains);
    ReadAppend(servers + search, options, NO_DNS);
    ReadAppend(servers, search, NO_DNS);
    ReadServers(c.servers, NO_DNS);
    var afterServers := NO_DNS.(servers := c.servers);
    assert [] + c.servers == c.servers && [] + c.options == c.options;
    if c.searchDomains != [] {
      ReadSearch(c.searchDomains, afterServers);
    }
    ReadOptions(c.options, afterServers.(searchDomains := c.searchDomains));
  }

  lemma StrippedIsOneLiner(line: string, prefix: string)
    requires Trimmed(line) && '\n' !in line
    requires prefix in {"nameserver ", "options "}
    ensures var s := StripPrefix(line, prefix);
            s.Some? ==> OneLiner(Trim(s.value))
  {
    var s := StripPrefix(line, prefix);
    if s.Some? {
      assert line[|prefix| - 1] == prefix[|prefix| - 1] == ' ';
      assert |line| > |prefix|;
      assert s.value[|s.value| - 1] == line[|line| - 1];
      TrimKeeps(s.value, |s.value| - 1);
      forall c | c in s.value ensures c in line {
        var i :| 0 <= i < |s.value| && s.value[i] == c;
        assert line[|prefix| + i] == c;
      }
      TrimWithin(s.value, '\n');
    }
  }

  /** Whatever is read is clean. */
  lemma ReadLineClean(dns: DnsConfig, raw: string)
    requires Clean(dns) && '\n' !in raw
    ensures Clean(ReadLine(dns, raw))
  {
    var line := Trim(raw);
    TrimWithin(raw, '\n');
    StrippedIsOneLiner(line, "nameserver ");
    StrippedIsOneLiner(line, "options ");
  }

  lemma {:induction false} ReadLinesClean(lines: seq<string>, dns: DnsConfig)
    requires Clean(dns) && forall l | l in lines :: '\n' !in l
    ensures Clean(ReadLines(lines, dns))
    decreases |lines|
  {
    if lines == [] {
    } else {
      assert lines[0] in lines && forall l | l in lines[1..] :: l in lines;
      ReadLineClean(dns, lines[0]);
      ReadLinesClean(lines[1..], ReadLine(dns, lines[0]));
    }
  }

  /**
   Reading back what was written gives the same configuration if and only if every server
   and option is a trimmed line of its own and every search domain is one word.
   */
  lemma RoundTripIff(c: DnsConfig)
    ensures ReadLines(Lines(Unlines(ConfigLines(c))), NO_DNS) == c <==> Clean(c)
  {
    if Clean(c) {
      ConfigLinesClean(c);
      LinesUnlines(ConfigLines(c));
      ReadConfigLines(c);
    }
    ReadLinesClean(Lines(Unlines(ConfigLines(c))), NO_DNS);
  }
}
