/**
 What the lines of a wg-quick file mean, key by key: settings, headers, lines that are ignored
 and lines that are errors.
 */
module WgQuickLines {
  import opened Wrappers
  import opened Text
  import opened WgQuick

  // ----- kinds of lines -----

  predicate IsComment(line: string) {
    line == "" || "#" <= line || ";" <= line
  }

  predicate IsBracketed(line: string) {
    |line| >= 2 && "[" <= line && line[|line| - 1] == ']'
  }

  /** Trimmed, the line is left, the first equals sign and right. */
  predicate IsSetting(raw: string, left: string, right: string) {
    var line := Trim(raw);
    !IsComment(line) && !IsBracketed(line) && line == left + "=" + right && '=' !in left
  }

  lemma SettingParts(raw: string, left: string, right: string)
    requires IsSetting(raw, left, right)
    ensures var line := Trim(raw);
            && !Skipped(line) && !IsHeader(line) && Find(line, '=', 0) == Some(|left|)
            && Key(line, |left|) == Trim(left) && Value(line, |left|) == Trim(right)
  {
    var line := Trim(raw);
    assert line[|left|] == '=';
    forall i | 0 <= i < |left| ensures line[i] != '=' {
      assert line[i] == left[i] && left[i] in left;
    }
    FindIs(line, '=', 0, |left|);
    assert line[..|left|] == left && line[|left| + 1..] == right;
  }

  /** The name in the last header of these lines. */
  function LastHeader(lines: seq<string>): Option<string>
    decreases |lines|
  {
    if lines == [] then None
    else
      var line := Trim(lines[|lines| - 1]);
      if IsBracketed(line) then Some(line[1..|line| - 1]) else LastHeader(lines[..|lines| - 1])
  }

  /** The current section is that of the last header read. */
  lemma {:induction false} SectionRead(lines: seq<string>, st: State)
    requires ReadLines(lines, START) == Ok(st)
    ensures st.section == Outside <==> LastHeader(lines) == None
    ensures st.section == InInterface <==> LastHeader(lines) == Some("Interface")
    ensures st.section == InPeer <==> LastHeader(lines) == Some("Peer")
    decreases |lines|
  {
    if lines == [] {
    } else {
      var front, last := lines[..|lines| - 1], lines[|lines| - 1];
      assert lines == front + [last];
      ReadAppend(front, [last], START);
      var mid := ReadLines(front, START);
      SectionRead(front, mid.value);
      OneLine(last, mid.value);
      SectionStep(last, mid.value);
    }
  }

  lemma OneLine(line: string, st: State)
    requires Coherent(st)
    ensures ReadLines([line], st) == ReadLine(st, line)
  {
    assert [line][1..] == [];
    var next := ReadLine(st, line);
    assert next.Ok? ==> ReadLines([], next.value) == next;
  }

  lemma SectionStep(raw: string, st: State)
    requires Coherent(st) && ReadLine(st, raw).Ok?
    ensures var line, next := Trim(raw), ReadLine(st, raw).value;
            if !IsBracketed(line) then next.section == st.section
            else if line[1..|line| - 1] == "Interface" then next.section == InInterface
            else next.section == InPeer && line[1..|line| - 1] == "Peer"
  {
  }

  // ----- ignored lines -----

  predicate InterfaceKey(key: string) {
    key == "PrivateKey" || key == "ListenPort" || key == "Address" || key == "DNS" || key == "FwMark"
  }

  predicate PeerKey(key: string) {
    || key == "PublicKey" || key == "PresharedKey" || key == "Endpoint" || key == "AllowedIPs"
    || key == "PersistentKeepalive"
  }

  /** A setting with a key unknown to its section, or before any section, changes nothing anywhere. */
  lemma UnknownSettingsIgnored(a: seq<string>, line: string, b: seq<string>, left: string, right: string)
    requires IsSetting(line, left, right)
    requires match LastHeader(a)
             case None => true
             case Some(name) => (name == "Interface" ==> !InterfaceKey(Trim(left)))
                                && (name == "Peer" ==> !PeerKey(Trim(left)))
    ensures Parsed(a + [line] + b) == Parsed(a + b)
  {
    if ReadLines(a, START).Ok? {
      SectionRead(a, ReadLines(a, START).value);
      SettingParts(line, left, right);
    }
    LineChangesNothing(a, line, b);
  }

  // ----- settings -----

  /** What each key of [Interface] sets; a malformed number is an error. */
  lemma InterfaceSettings(st: State, raw: string, left: string, right: string)
    requires Coherent(st) && st.section == InInterface && IsSetting(raw, left, right)
    ensures var key, value, r := Trim(left), Trim(right), ReadLine(st, raw);
            && (key == "PrivateKey" ==> r == Ok(st.(config := st.config.(privateKey := value))))
            && (key == "Address" ==>
                  r == Ok(st.(config := st.config.(addresses := st.config.addresses + TrimAll(SplitOn(value, ','))))))
            && (key == "DNS" ==>
                  r == Ok(st.(config := st.config.(dnsServers := st.config.dnsServers + TrimAll(SplitOn(value, ','))))))
            && (key == "ListenPort" ==>
                  r == match ParseNumber(value, 65535)
                       case Some(n) => Ok(st.(config := st.config.(listenPort := n)))
                       case None => Err(InvalidLine(Trim(raw))))
            && (key == "FwMark" ==>
                  r == match ParseNumber(value, 4294967295)
                       case Some(n) => Ok(st.(config := st.config.(fwmark := n)))
                       case None => Err(InvalidLine(Trim(raw))))
  {
    SettingParts(raw, left, right);
  }

  /** What each key of [Peer] sets in the open peer. */
  lemma PeerSettings(st: State, raw: string, left: string, right: string)
    requires Coherent(st) && st.section == InPeer && IsSetting(raw, left, right)
    ensures var key, value, r, p := Trim(left), Trim(right), ReadLine(st, raw), st.peer.value;
            && (key == "PublicKey" ==> r == Ok(st.(peer := Some(p.(publicKey := value)))))
            && (key == "PresharedKey" ==> r == Ok(st.(peer := Some(p.(presharedKey := Some(value))))))
            && (key == "Endpoint" ==> r == Ok(st.(peer := Some(p.(endpoint := Some(value))))))
            && (key == "AllowedIPs" ==>
                  r == Ok(st.(peer := Some(p.(allowedIps := p.allowedIps + TrimAll(SplitOn(value, ',')))))))
            && (key == "PersistentKeepalive" ==>
                  r == match ParseNumber(value, 65535)
                       case Some(n) => Ok(st.(peer := Some(p.(keepalive := n))))
                       case None => Err(InvalidLine(Trim(raw))))
  {
    SettingParts(raw, left, right);
  }

  predicate AllDigits(s: string) {
    forall i | 0 <= i < |s| :: '0' <= s[i] <= '9'
  }

  lemma {:induction false} DigitsRead(s: string)
    ensures DigitsValue(s).Some? <==> AllDigits(s)
    decreases |s|
  {
    if s == "" {
    } else {
      DigitsRead(s[..|s| - 1]);
      assert s == s[..|s| - 1] + [s[|s| - 1]];
    }
  }

  /** Each further digit counts itself and ten times the digits before it; leading zeros are no exception. */
  lemma DigitAppended(s: string, c: char)
    requires AllDigits(s) && '0' <= c <= '9'
    ensures DigitsValue("") == Some(0)
    ensures DigitsValue(s).Some?
    ensures DigitsValue(s + [c]) == Some(10 * DigitsValue(s).value + (c as int - 48))
  {
    DigitsRead(s);
    LastDigit(s + [c], s);
  }

  lemma LastDigit(more: string, s: string)
    requires more != "" && more[..|more| - 1] == s && DigitsValue(s).Some? && IsDigit(more[|more| - 1])
    ensures DigitsValue(more) == Some(10 * DigitsValue(s).value + (more[|more| - 1] as int - 48))
  {
  }

  /** A number is one or more decimal digits with or without a plus sign before them, up to the limit. */
  lemma NumberForms(s: string, limit: nat)
    ensures AllDigits(s) && s != "" ==>
              && ParseNumber("+" + s, limit) == ParseNumber(s, limit)
              && match DigitsValue(s)
                 case Some(n) => ParseNumber(s, limit) == if n <= limit then Some(n) else None
                 case None => false
    ensures ParseNumber(s, limit).Some? ==>
              (AllDigits(s) && s != "") || (|s| > 1 && s[0] == '+' && AllDigits(s[1..]))
  {
    DigitsRead(s);
    if s != "" {
      DigitsRead(s[1..]);
    }
    assert ("+" + s)[1..] == s;
  }

  // ----- headers, errors and the end -----

  lemma BracketedName(line: string, name: string)
    requires IsBracketed(line)
    ensures line == "[" + name + "]" <==> line[1..|line| - 1] == name
  {
    assert line == "[" + line[1..|line| - 1] + "]";
  }

  /** A header closes the open peer; [Interface] continues with the interface, [Peer] opens an empty peer. */
  lemma HeadersRead(st: State, raw: string)
    requires Coherent(st) && IsBracketed(Trim(raw))
    ensures var line, r := Trim(raw), ReadLine(st, raw);
            var closed := if st.peer.Some? then st.config.(peers := st.config.peers + [st.peer.value]) else st.config;
            && (line == "[Interface]" ==> r == Ok(State(closed, InInterface, None)))
            && (line == "[Peer]" ==> r == Ok(State(closed, InPeer, Some(Peer("", None, None, [], 0)))))
            && (line != "[Interface]" && line != "[Peer]" ==> r == Err(UnknownSection(line[1..|line| - 1])))
  {
    var line := Trim(raw);
    BracketedName(line, "Interface");
    BracketedName(line, "Peer");
    assert "[Interface]" == "[" + "Interface" + "]" && "[Peer]" == "[" + "Peer" + "]";
  }

  /** Any other line must have an equals sign. */
  lemma MissingEquals(st: State, raw: string)
    requires Coherent(st) && !IsComment(Trim(raw)) && !IsBracketed(Trim(raw)) && '=' !in Trim(raw)
    ensures ReadLine(st, raw) == Err(InvalidLine(Trim(raw)))
  {
  }

  /** The first error ends the parse, a file without a private key is an error, and the last peer counts. */
  lemma ParseEnds(lines: seq<string>)
    ensures match ReadLines(lines, State(WgConfig("", 0, [], [], 0, []), Outside, None))
            case Err(e) => Parsed(lines) == Err(e)
            case Ok(st) =>
              if st.config.privateKey == "" then Parsed(lines) == Err(MissingPrivateKey)
              else Parsed(lines) ==
                   Ok(if st.peer.Some? then st.config.(peers := st.config.peers + [st.peer.value]) else st.config)
  {
  }
}
