/**
 The client configuration that the server renders for a peer (internal/api/peerconfig.go) and the
 parser and endpoint splitter of the import dialog (internal/api/web/peers.js).
 */
module PeerConfigs {
  import opened Wrappers
  import opened Text
  import Decimal

  // ----- the parser --------------------------------------------------------------------------------

  /** The lines of a text; a line break may start with a carriage return. */
  function Lines(text: string): (lines: seq<string>)
    ensures lines != [] && forall l :: l in lines ==> '\n' !in l
  {
    if text == "" then [""]
    else if text[0] == '\n' then [""] + Lines(text[1..])
    else if text[0] == '\r' && |text| > 1 && text[1] == '\n' then [""] + Lines(text[2..])
    else var rest := Lines(text[1..]); [[text[0]] + rest[0]] + rest[1..]
  }

  datatype Parsed = Parsed(section: Option<string>, iface: map<string, string>, peer: map<string, string>)

  function Put(st: Parsed, key: string, val: string): Parsed
  {
    if st.section == Some("interface") then st.(iface := st.iface[key := val])
    else if st.section == Some("peer") then st.(peer := st.peer[key := val])
    else st
  }

  function ParseLine(st: Parsed, raw: string): Parsed
  {
    var line := Trim(raw);
    if line == "" || line[0] == '#' || line[0] == ';' then st
    else if line[0] == '[' && line[|line| - 1] == ']' then
      st.(section := Some(Lower(Trim(line[1..|line| - 1]))))
    else
      var idx := IndexOf(line, '=');
      if idx < 0 then st else Put(st, Trim(line[..idx]), Trim(line[idx + 1..]))
  }

  function ParseLines(st: Parsed, lines: seq<string>): Parsed
    decreases |lines|
  {
    if lines == [] then st else ParseLines(ParseLine(st, lines[0]), lines[1..])
  }

  function Parse(text: string): Parsed { ParseLines(Parsed(None, map[], map[]), Lines(text)) }

  method ParseAwgConfig(text: string) returns (iface: map<string, string>, peer: map<string, string>)
    ensures iface == Parse(text).iface && peer == Parse(text).peer
  {
    hide Lines, Trim, Lower, IndexOf;
    var section: Option<string> := None;
    iface, peer := map[], map[];
    var lines := Lines(text);
    for i := 0 to |lines|
      invariant ParseLines(Parsed(section, iface, peer), lines[i..]) == Parse(text)
    {
      assert lines[i..][1..] == lines[i + 1..];
      var line := Trim(lines[i]);
      if line == "" || line[0] == '#' || line[0] == ';' { continue; }
      if line[0] == '[' && line[|line| - 1] == ']' {
        section := Some(Lower(Trim(line[1..|line| - 1])));
        continue;
      }
      var idx := IndexOf(line, '=');
      if idx < 0 { continue; }
      var key, val := Trim(line[..idx]), Trim(line[idx + 1..]);
      if section == Some("interface") { iface := iface[key := val]; }
      else if section == Some("peer") { peer := peer[key := val]; }
    }
  }

  // ----- the printer -------------------------------------------------------------------------------

  datatype Obfuscation = Obfuscation(jc: int, jmin: int, jmax: int, s1: int, s2: int, h1: nat, h2: nat, h3: nat,
      h4: nat)
  datatype Settings = Settings(clientDNS: string, publicEndpoint: string, obfuscation: Obfuscation)
  datatype Request = Request(privateKey: string, address: string, presharedKey: string)

  function PrintInt(n: int): string { if n < 0 then "-" + Decimal.Print(-n) else Decimal.Print(n) }

  /** One line of a section. */
  function Line(key: string, val: string): string { key + " = " + val + "\n" }

  type Fields = seq<(string, string)>

  function FieldsText(fields: Fields): string
  {
    if fields == [] then "" else FieldsText(fields[..|fields| - 1]) + Line(fields[|fields| - 1].0,
        fields[|fields| - 1].1)
  }

  function ObfuscationFields(o: Obfuscation): Fields
  {
    [("Jc", PrintInt(o.jc)), ("Jmin", PrintInt(o.jmin)), ("Jmax", PrintInt(o.jmax)), ("S1", PrintInt(o.s1)),
     ("S2", PrintInt(o.s2)), ("H1", PrintInt(o.h1)), ("H2", PrintInt(o.h2)), ("H3", PrintInt(o.h3)),
     ("H4", PrintInt(o.h4))]
  }

  function IfaceFields(s: Settings, req: Request): Fields
  {
    [("PrivateKey", req.privateKey), ("Address", req.address)]
    + (if s.clientDNS != "" then [("DNS", s.clientDNS)] else [])
    + ObfuscationFields(s.obfuscation)
  }

  function EndpointFields(s: Settings): Fields
  {
    [("AllowedIPs", "0.0.0.0/0, ::/0"), ("Endpoint", s.publicEndpoint), ("PersistentKeepalive", "25")]
  }

  function PeerFields(s: Settings, serverKey: string, req: Request): Fields
  {
    [("PublicKey", serverKey)]
    + (if req.presharedKey != "" then [("PresharedKey", req.presharedKey)] else [])
    + EndpointFields(s)
  }

  function Rendered(s: Settings, serverKey: string, req: Request): string
  {
    "[Interface]\n" + FieldsText(IfaceFields(s, req)) + "\n[Peer]\n" + FieldsText(PeerFields(s, serverKey, req))
  }

  lemma AddField(start: string, fields: Fields, key: string, val: string)
    ensures start + FieldsText(fields) + Line(key, val) == start + FieldsText(fields + [(key, val)])
  {
    assert (fields + [(key, val)])[..|fields|] == fields;
  }

  method WriteField(b: string, key: string, val: string, ghost start: string, ghost fields: Fields)
    returns (r: string, ghost written: Fields)
    requires b == start + FieldsText(fields)
    ensures r == start + FieldsText(written) && written == fields + [(key, val)]
  {
    AddField(start, fields, key, val);
    r, written := b + Line(key, val), fields + [(key, val)];
  }

  /** The obfuscation parameters, which must agree with the server's. */
  method WriteObfuscation(b: string, o: Obfuscation, ghost start: string, ghost fields: Fields) returns (r: string)
    requires b == start + FieldsText(fields)
    ensures r == start + FieldsText(fields + ObfuscationFields(o))
  {
    hide FieldsText, Line, PrintInt;
    ghost var w := fields;
    r := b;
    r, w := WriteField(r, "Jc", PrintInt(o.jc), start, w);
    r, w := WriteField(r, "Jmin", PrintInt(o.jmin), start, w);
    r, w := WriteField(r, "Jmax", PrintInt(o.jmax), start, w);
    r, w := WriteField(r, "S1", PrintInt(o.s1), start, w);
    r, w := WriteField(r, "S2", PrintInt(o.s2), start, w);
    r, w := WriteField(r, "H1", PrintInt(o.h1), start, w);
    r, w := WriteField(r, "H2", PrintInt(o.h2), start, w);
    r, w := WriteField(r, "H3", PrintInt(o.h3), start, w);
    r, w := WriteField(r, "H4", PrintInt(o.h4), start, w);
    assert w == fields + ObfuscationFields(o);
  }

  method WriteInterface(s: Settings, req: Request) returns (b: string)
    ensures b == "[Interface]\n" + FieldsText(IfaceFields(s, req))
  {
    ghost var start, w := "[Interface]\n", [];
    b := "[Interface]\n";
    assert b == start + FieldsText(w);
    hide FieldsText, Line, ObfuscationFields;
    b, w := WriteField(b, "PrivateKey", req.privateKey, start, w);
    b, w := WriteField(b, "Address", req.address, start, w);
    if s.clientDNS != "" {
      b, w := WriteField(b, "DNS", s.clientDNS, start, w);
    }
    b := WriteObfuscation(b, s.obfuscation, start, w);
    assert w + ObfuscationFields(s.obfuscation) == IfaceFields(s, req);
  }

  method RenderClientConfig(s: Settings, serverKey: string, req: Request) returns (b: string)
    ensures b == Rendered(s, serverKey, req)
  {
    hide Line, IfaceFields;
    b := WriteInterface(s, req);
    b := b + "\n[Peer]\n";
    ghost var start, w := b, [];
    assert b == start + FieldsText(w);
    hide FieldsText;
    b, w := WriteField(b, "PublicKey", serverKey, start, w);
    if req.presharedKey != "" {
      b, w := WriteField(b, "PresharedKey", req.presharedKey, start, w);
    }
    b, w := WriteField(b, "AllowedIPs", "0.0.0.0/0, ::/0", start, w);
    b, w := WriteField(b, "Endpoint", s.publicEndpoint, start, w);
    b, w := WriteField(b, "PersistentKeepalive", "25", start, w);
    assert w == PeerFields(s, serverKey, req);
  }

  // ----- parsing what is rendered --------------------------------------------------------------------

  /** A value that survives as text: trimmed, on one line. */
  predicate Clean(v: string) { Trimmed(v) && '\n' !in v }

  predicate Word(k: string)
  {
    k != "" && forall i :: 0 <= i < |k| ==> 'A' <= k[i] <= 'Z' || 'a' <= k[i] <= 'z' || Decimal.IsDigit(k[i])
  }

  predicate Wordy(fields: Fields) { forall f :: f in fields ==> Word(f.0) }

  predicate AllClean(fields: Fields) { forall f :: f in fields ==> Clean(f.1) }

  function FieldMap(fields: Fields): map<string, string>
  {
    if fields == [] then map[] else FieldMap(fields[..|fields| - 1])[fields[|fields| - 1].0 := fields[|fields| - 1].1]
  }

  lemma {:induction false} LinesStep(l: string, rest: string)
    requires '\n' !in l && (l != "" ==> l[|l| - 1] != '\r')
    ensures Lines(l + "\n" + rest) == [l] + Lines(rest)
  {
    var text := l + "\n" + rest;
    if l == "" {
      assert text[1..] == rest;
    } else {
      LinesStep(l[1..], rest);
      assert text[1..] == l[1..] + "\n" + rest && text[0] == l[0];
      assert |l| > 1 ==> text[1] == l[1];
      assert [l[0]] + l[1..] == l;
    }
  }

  lemma FirstEquals(a: string, b: string)
    requires '=' !in a
    ensures IndexOf(a + "=" + b, '=') == |a|
  {
    hide IndexOf;
    var s := a + "=" + b;
    assert s[|a|] == '=';
    assert forall i :: 0 <= i < |a| ==> s[i] == a[i];
  }

  /** The part after `key =`, whatever `trim` took from its end. */
  lemma TrimAfterSpace(v: string)
    requires Clean(v)
    ensures Trim(" " + v) == v
  {
    assert (" " + v)[1..] == v;
  }

  lemma TrimBeforeSpace(k: string)
    requires Word(k)
    ensures Trim(k + " ") == k
  {
    var s := k + " ";
    assert s[0] == k[0] && s[..|s| - 1] == k;
  }

  lemma Edges(left: string, right: string)
    requires left != "" && right != ""
    ensures var s := left + "=" + right; s != "" && s[0] == left[0] && s[|s| - 1] == right[|right| - 1]
  {
  }

  lemma KeyLineTrims(k: string, v: string)
    requires Word(k) && Clean(v)
    ensures Trim(k + " = " + v) == if v == "" then k + " " + "=" + "" else k + " " + "=" + (" " + v)
  {
    if v == "" {
      EmptyLineTrims(k);
      assert k + " = " + "" == k + " = ";
    } else {
      Regrouped(k, v);
      hide Trim;
      Edges(k + " ", " " + v);
      assert (k + " ")[0] == k[0] && (" " + v)[|" " + v| - 1] == v[|v| - 1];
    }
  }

  lemma Regrouped(k: string, v: string)
    ensures k + " = " + v == k + " " + "=" + (" " + v)
  {
    assert " = " == " " + "=" + " ";
  }

  lemma EmptyLineTrims(k: string)
    requires Word(k)
    ensures Trim(k + " = ") == k + " " + "=" + ""
  {
    var raw := k + " = ";
    assert raw[0] == k[0] && raw[..|raw| - 1] == k + " =" && raw[|raw| - 1] == ' ';
    assert Trimmed(k + " =");
    assert k + " =" == k + " " + "=" + "";
  }

  lemma CutAtEquals(st: Parsed, raw: string, a: string, b: string)
    requires Trim(raw) == a + "=" + b && '=' !in a && a != "" && a[0] !in "#;["
    ensures ParseLine(st, raw) == Put(st, Trim(a), Trim(b))
  {
    hide Trim, Put, IndexOf;
    FirstEquals(a, b);
    var line := a + "=" + b;
    assert line[0] == a[0] && line[..|a|] == a && line[|a| + 1..] == b;
  }

  // ----- what the parser makes of a line -----------------------------------------------------------

  /** Blank lines and comments change nothing. */
  lemma NoiseIsSkipped(st: Parsed, l: string, c: char, rest: string)
    requires Spaces(l) && (c == '#' || c == ';')
    ensures ParseLine(st, l) == st && ParseLine(st, l + ([c] + rest)) == st
  {
    TrimSpaces(l);
    TrimKeepsFirst(l, [c] + rest);
    hide Trim;
  }

  /** A name in brackets, in any case and with white space around and within the brackets, opens its section. */
  lemma SectionIsRead(st: Parsed, l: string, a: string, name: string, b: string, r: string)
    requires Spaces(l) && Spaces(a) && Spaces(b) && Spaces(r) && name != "" && Trimmed(name)
    ensures ParseLine(st, l + ("[" + (a + name + b) + "]") + r) == st.(section := Some(Lower(name)))
  {
    var line := "[" + (a + name + b) + "]";
    assert line[|line| - 1] == ']' && line[1..|line| - 1] == a + name + b;
    TrimPadded(l, line, r);
    TrimPadded(a, name, b);
    hide Trim, Lower;
  }

  /**
   A key and a value with white space around them go into the open section, if it is one of the two;
   the key ends at the first '=', so that the value may have more of them.
   */
  lemma KeyIsRead(st: Parsed, l: string, key: string, a: string, b: string, value: string, r: string)
    requires Spaces(l) && Spaces(a) && Spaces(b) && Spaces(r) && Trimmed(key) && Trimmed(value) && value != ""
    requires key != "" && '=' !in key && key[0] !in "#;["
    ensures var after := ParseLine(st, l + ((key + a) + "=" + (b + value)) + r);
      && after.section == st.section
      && after.iface == (if st.section == Some("interface") then st.iface[key := value] else st.iface)
      && after.peer == (if st.section == Some("peer") then st.peer[key := value] else st.peer)
  {
    TrimAfter(key, a);
    TrimBefore(b, value);
    Edges(key + a, b + value);
    hide Trim, ParseLine;
    TrimPadded(l, key + a + "=" + (b + value), r);
    CutAtEquals(st, l + ((key + a) + "=" + (b + value)) + r, key + a, b + value);
    assert "interface"[0] == 'i' && "peer"[0] == 'p';
  }

  lemma TrimAfter(key: string, a: string)
    requires Spaces(a) && Trimmed(key) && key != "" && '=' !in key
    ensures Trim(key + a) == key && '=' !in key + a && key + a != "" && (key + a)[0] == key[0]
  {
    TrimPadded("", key, a);
    assert "" + key + a == key + a;
    assert forall i :: 0 <= i < |a| ==> a[i] != '=';
  }

  lemma TrimBefore(b: string, value: string)
    requires Spaces(b) && Trimmed(value) && value != ""
    ensures Trim(b + value) == value && b + value != "" && (b + value)[|b + value| - 1] == value[|value| - 1]
  {
    TrimPadded(b, value, "");
    assert b + value + "" == b + value;
  }

  lemma LineParses(st: Parsed, k: string, v: string)
    requires Word(k) && Clean(v)
    ensures ParseLine(st, k + " = " + v) == Put(st, k, v)
  {
    KeyLineTrims(k, v);
    TrimBeforeSpace(k);
    TrimAfterSpace(v);
    assert (k + " ")[0] == k[0] && '=' !in k + " ";
    hide Trim, Put, ParseLine;
    CutAtEquals(st, k + " = " + v, k + " ", if v == "" then "" else " " + v);
  }

  function PutAll(st: Parsed, fields: Fields): Parsed
  {
    if fields == [] then st
    else Put(PutAll(st, fields[..|fields| - 1]), fields[|fields| - 1].0, fields[|fields| - 1].1)
  }

  lemma FieldLineParses(st: Parsed, k: string, v: string, rest: string)
    requires Word(k) && Clean(v)
    ensures ParseLines(st, Lines(Line(k, v) + rest)) == ParseLines(Put(st, k, v), Lines(rest))
  {
    var l := k + " = " + v;
    assert Line(k, v) + rest == l + "\n" + rest;
    assert '\n' !in l && l[|l| - 1] != '\r';
    LinesStep(l, rest);
    LineParses(st, k, v);
    hide Lines, ParseLine, Put;
    assert ([l] + Lines(rest))[1..] == Lines(rest);
  }

  lemma {:induction false} FieldsParse(st: Parsed, fields: Fields, rest: string)
    requires Wordy(fields) && AllClean(fields)
    ensures ParseLines(st, Lines(FieldsText(fields) + rest)) == ParseLines(PutAll(st, fields), Lines(rest))
    decreases |fields|
  {
    hide Put, Lines, ParseLines, Line;
    if fields == [] {
      assert "" + rest == rest;
    } else {
      var n := |fields| - 1;
      var k, v := fields[n].0, fields[n].1;
      assert fields[n] in fields;
      FieldsParse(st, fields[..n], Line(k, v) + rest);
      FieldLineParses(PutAll(st, fields[..n]), k, v, rest);
      assert FieldsText(fields) + rest == FieldsText(fields[..n]) + (Line(k, v) + rest);
    }
  }

  lemma {:induction false} PutAllMaps(st: Parsed, fields: Fields)
    ensures PutAll(st, fields).section == st.section
    ensures st.section == Some("interface") && st.iface == map[] ==>
              PutAll(st, fields).iface == FieldMap(fields) && PutAll(st, fields).peer == st.peer
    ensures st.section == Some("peer") && st.peer == map[] ==>
              PutAll(st, fields).peer == FieldMap(fields) && PutAll(st, fields).iface == st.iface
  {
    assert "interface" != "peer" by { assert |"interface"| != |"peer"|; }
    if fields == [] {
    } else {
      PutAllMaps(st, fields[..|fields| - 1]);
    }
  }

  lemma HeaderParses(st: Parsed, name: string)
    requires Word(name)
    ensures ParseLine(st, "[" + name + "]") == st.(section := Some(Lower(name)))
  {
    var line := "[" + name + "]";
    assert line[0] == '[' && line[|line| - 1] == ']' && line[1..|line| - 1] == name;
    hide Lower, Trim, IndexOf;
    assert Trim(line) == line && Trim(name) == name;
  }

  lemma HeaderStep(st: Parsed, name: string, rest: string)
    requires Word(name)
    ensures ParseLines(st, Lines("[" + name + "]" + "\n" + rest))
        == ParseLines(st.(section := Some(Lower(name))), Lines(rest))
  {
    var l := "[" + name + "]";
    assert '\n' !in l && l[|l| - 1] == ']';
    LinesStep(l, rest);
    HeaderParses(st, name);
    hide Lines, ParseLine, Lower;
    assert ([l] + Lines(rest))[1..] == Lines(rest);
  }

  lemma BlankStep(st: Parsed, rest: string)
    ensures ParseLines(st, Lines("\n" + rest)) == ParseLines(st, Lines(rest))
  {
    var text := "\n" + rest;
    assert text[1..] == rest;
    assert Lines(text) == [""] + Lines(rest) && ParseLine(st, "") == st;
    hide Lines, ParseLine;
    assert ([""] + Lines(rest))[1..] == Lines(rest);
  }

  lemma SectionParses(st: Parsed, rest: string)
    ensures ParseLines(st, Lines("[Interface]\n" + rest)) == ParseLines(st.(section := Some("interface")), Lines(rest))
    ensures ParseLines(st, Lines("\n[Peer]\n" + rest)) == ParseLines(st.(section := Some("peer")), Lines(rest))
  {
    HeaderTexts(rest);
    hide Lines, ParseLines, Lower;
    LowerHeaders();
    HeaderStep(st, "Interface", rest);
    HeaderStep(st, "Peer", rest);
    BlankStep(st, "[" + "Peer" + "]" + "\n" + rest);
  }

  lemma HeaderTexts(rest: string)
    ensures "[Interface]\n" + rest == "[" + "Interface" + "]" + "\n" + rest
    ensures "\n[Peer]\n" + rest == "\n" + ("[" + "Peer" + "]" + "\n" + rest)
  {
    assert "[Interface]\n" == "[" + "Interface" + "]" + "\n";
    assert "\n[Peer]\n" == "\n" + ("[" + "Peer" + "]" + "\n");
  }

  lemma LowerHeaders()
    ensures Lower("Interface") == "interface" && Lower("Peer") == "peer"
  {
    var i, p := Lower("Interface"), Lower("Peer");
    hide Lower;
    assert p[0] == 'p' && p[1] == 'e' && p[2] == 'e' && p[3] == 'r';
    assert i[0] == 'i' && i[1] == 'n' && i[2] == 't' && i[3] == 'e' && i[4] == 'r';
    assert i[5] == 'f' && i[6] == 'a' && i[7] == 'c' && i[8] == 'e';
  }

  ghost predicate Distinct(fields: Fields)
  {
    forall i, j :: 0 <= i < j < |fields| ==> fields[i].0 != fields[j].0
  }

  /** With distinct keys the map has every field's value, and nothing else. */
  lemma {:induction false} FieldMapHas(fields: Fields)
    requires Distinct(fields)
    ensures forall i :: 0 <= i < |fields| ==>
        fields[i].0 in FieldMap(fields) && FieldMap(fields)[fields[i].0] == fields[i].1
    ensures forall k :: k in FieldMap(fields) ==> exists i :: 0 <= i < |fields| && fields[i].0 == k
  {
    if fields == [] {
    } else {
      var front := fields[..|fields| - 1];
      FieldMapHas(front);
      assert forall i :: 0 <= i < |front| ==> fields[i] == front[i];
    }
  }

  /** All keys of a list start with this letter. */
  ghost predicate Starts(fields: Fields, c: char) { forall f :: f in fields ==> f.0 != "" && f.0[0] == c }

  lemma ObfuscationKeys(o: Obfuscation)
    ensures Distinct(ObfuscationFields(o)) && Wordy(ObfuscationFields(o))
    ensures forall f :: f in ObfuscationFields(o) ==> f.0 != "" && (f.0[0] == 'J' || f.0[0] == 'S' || f.0[0] == 'H')
  {
    hide PrintInt, Word;
    var f := ObfuscationFields(o);
    var junk, sizes, headers := f[..3], f[3..5], f[5..];
    JunkKeys(o);
    SizeKeys(o);
    HeaderKeys(o);
    hide ObfuscationFields;
    assert f == junk + (sizes + headers);
    DistinctBoth(sizes, headers);
    DistinctBoth(junk, sizes + headers);
  }

  lemma JunkKeys(o: Obfuscation)
    ensures var f := ObfuscationFields(o)[..3]; Distinct(f) && Wordy(f) && Starts(f, 'J')
  {
    hide PrintInt;
    assert ObfuscationFields(o)[..3]
           == [("Jc", PrintInt(o.jc)), ("Jmin", PrintInt(o.jmin)), ("Jmax", PrintInt(o.jmax))];
    assert "Jmin"[2] == 'i' && "Jmax"[2] == 'a' && |"Jc"| == 2;
  }

  lemma SizeKeys(o: Obfuscation)
    ensures |ObfuscationFields(o)| == 9
    ensures var f := ObfuscationFields(o)[3..5]; Distinct(f) && Wordy(f) && Starts(f, 'S')
  {
    hide PrintInt;
    assert ObfuscationFields(o)[3..5] == [("S1", PrintInt(o.s1)), ("S2", PrintInt(o.s2))];
    assert "S1"[1] != "S2"[1];
  }

  lemma HeaderKeys(o: Obfuscation)
    ensures var f := ObfuscationFields(o)[5..]; Distinct(f) && Wordy(f) && Starts(f, 'H')
  {
    hide PrintInt;
    assert ObfuscationFields(o)[5..]
           == [("H1", PrintInt(o.h1)), ("H2", PrintInt(o.h2)), ("H3", PrintInt(o.h3)), ("H4", PrintInt(o.h4))];
    assert "H1"[1] == '1' && "H2"[1] == '2' && "H3"[1] == '3' && "H4"[1] == '4';
  }

  lemma IfaceKeys(s: Settings, req: Request)
    ensures Distinct(IfaceFields(s, req)) && Wordy(IfaceFields(s, req))
  {
    ObfuscationKeys(s.obfuscation);
    hide ObfuscationFields;
    var first := [("PrivateKey", req.privateKey), ("Address", req.address)]
                 + if s.clientDNS != "" then [("DNS", s.clientDNS)] else [];
    assert forall f :: f in first ==> f.0[0] == 'P' || f.0[0] == 'A' || f.0[0] == 'D';
    assert Distinct(first) && Wordy(first);
    DistinctBoth(first, ObfuscationFields(s.obfuscation));
    assert IfaceFields(s, req) == first + ObfuscationFields(s.obfuscation);
  }

  lemma DistinctBoth(a: Fields, b: Fields)
    requires Distinct(a) && Distinct(b) && forall f, g :: f in a && g in b ==> f.0 != g.0
    ensures Distinct(a + b)
  {
  }

  lemma PeerKeys(s: Settings, serverKey: string, req: Request)
    ensures Distinct(PeerFields(s, serverKey, req)) && Wordy(PeerFields(s, serverKey, req))
  {
    var first := [("PublicKey", serverKey)]
                 + if req.presharedKey != "" then [("PresharedKey", req.presharedKey)] else [];
    assert forall f :: f in first ==> f.0[0] == 'P' && |f.0| <= 12;
    assert Distinct(first) && Wordy(first);
    EndpointKeys(s);
    DistinctBoth(first, EndpointFields(s));
    hide EndpointFields;
    assert PeerFields(s, serverKey, req) == first + EndpointFields(s);
  }

  lemma EndpointKeys(s: Settings)
    ensures Distinct(EndpointFields(s)) && Wordy(EndpointFields(s))
    ensures forall f :: f in EndpointFields(s) ==> f.0[0] == 'A' || f.0[0] == 'E' || |f.0| == 19
  {
    var a, e, p := "AllowedIPs", "Endpoint", "PersistentKeepalive";
    assert Word(a) && Word(e) && Word(p) && a[0] == 'A' && e[0] == 'E' && p[0] == 'P' && |p| == 19;
    hide Word;
  }

  predicate InputsClean(s: Settings, serverKey: string, req: Request)
  {
    && Clean(req.privateKey) && Clean(req.address) && Clean(s.clientDNS)
    && Clean(serverKey) && Clean(req.presharedKey) && Clean(s.publicEndpoint)
  }

  lemma {:induction false} NumberIsClean(n: int)
    ensures Clean(PrintInt(n))
  {
    hide Decimal.Print;
  }

  lemma CleanIface(s: Settings, req: Request)
    ensures AllClean(IfaceFields(s, req)) <==> Clean(req.privateKey) && Clean(req.address) && Clean(s.clientDNS)
  {
    var key, address, dns := ("PrivateKey", req.privateKey), ("Address", req.address), ("DNS", s.clientDNS);
    var optional := if s.clientDNS != "" then [dns] else [];
    assert IfaceFields(s, req) == [key, address] + optional + ObfuscationFields(s.obfuscation);
    assert AllClean([]) && Clean("");
    hide Clean, ObfuscationFields, IfaceFields, AllClean;
    NumbersAreClean(s.obfuscation);
    CleanBoth([key, address] + optional, ObfuscationFields(s.obfuscation));
    CleanBoth([key, address], optional);
    CleanBoth([key], [address]);
    assert [key] + [address] == [key, address];
    CleanOne(key);
    CleanOne(address);
    CleanOne(dns);
  }

  lemma CleanOne(f: (string, string))
    ensures AllClean([f]) <==> Clean(f.1)
  {
  }

  lemma CleanBoth(a: Fields, b: Fields)
    ensures AllClean(a + b) <==> AllClean(a) && AllClean(b)
  {
    hide Clean;
    assert forall f :: f in a + b <==> f in a || f in b;
  }

  lemma NumbersAreClean(o: Obfuscation)
    ensures AllClean(ObfuscationFields(o))
  {
    forall n: int ensures Clean(PrintInt(n)) { NumberIsClean(n); }
    hide Clean, PrintInt;
  }

  lemma CleanPeer(s: Settings, serverKey: string, req: Request)
    ensures AllClean(PeerFields(s, serverKey, req))
            <==> Clean(serverKey) && Clean(req.presharedKey) && Clean(s.publicEndpoint)
  {
    var p := PeerFields(s, serverKey, req);
    assert Clean("") && Clean("0.0.0.0/0, ::/0") && Clean("25");
    hide Clean;
    assert p[0] in p && p[|p| - 2] in p && (req.presharedKey != "" ==> p[1] in p);
  }

  lemma CleanFields(s: Settings, serverKey: string, req: Request)
    ensures InputsClean(s, serverKey, req) <==> AllClean(IfaceFields(s, req)) && AllClean(PeerFields(s, serverKey, req))
  {
    CleanIface(s, req);
    CleanPeer(s, serverKey, req);
    hide Clean, IfaceFields, PeerFields, AllClean;
  }

  /** Nothing but clean values ever comes out of the parser. */
  ghost predicate AllValuesClean(st: Parsed)
  {
    (forall k :: k in st.iface ==> Clean(st.iface[k])) && (forall k :: k in st.peer ==> Clean(st.peer[k]))
  }

  lemma {:induction false} ParsedIsClean(st: Parsed, lines: seq<string>)
    requires AllValuesClean(st) && forall l :: l in lines ==> '\n' !in l
    ensures AllValuesClean(ParseLines(st, lines))
    decreases |lines|
  {
    if lines == [] {
    } else {
      LineKeepsClean(st, lines[0]);
      hide AllValuesClean, ParseLine;
      ParsedIsClean(ParseLine(st, lines[0]), lines[1..]);
    }
  }

  lemma LineKeepsClean(st: Parsed, raw: string)
    requires AllValuesClean(st) && '\n' !in raw
    ensures AllValuesClean(ParseLine(st, raw))
  {
    hide Trim, Lower, IndexOf;
    var line := Trim(raw);
    assert forall i: nat :: i <= |line| ==> '\n' !in line[i..];
  }

  lemma CleanInputsComeBack(s: Settings, serverKey: string, req: Request)
    requires InputsClean(s, serverKey, req)
    ensures Parse(Rendered(s, serverKey, req)).iface == FieldMap(IfaceFields(s, req))
    ensures Parse(Rendered(s, serverKey, req)).peer == FieldMap(PeerFields(s, serverKey, req))
  {
    IfaceKeys(s, req);
    PeerKeys(s, serverKey, req);
    CleanFields(s, serverKey, req);
    var i, p := IfaceFields(s, req), PeerFields(s, serverKey, req);
    hide IfaceFields, PeerFields, FieldsText, Lines, ParseLine, PutAll, FieldMap, Wordy, AllClean, InputsClean;
    var st0 := Parsed(None, map[], map[]);
    var st1 := st0.(section := Some("interface"));
    var st2 := PutAll(st1, i);
    PutAllMaps(st1, i);
    PutAllMaps(st2.(section := Some("peer")), p);
    var second := "\n[Peer]\n" + FieldsText(p);
    SectionParses(st0, FieldsText(i) + second);
    FieldsParse(st1, i, second);
    SectionParses(st2, FieldsText(p));
    FieldsParse(st2.(section := Some("peer")), p, "");
    assert Rendered(s, serverKey, req) == "[Interface]\n" + (FieldsText(i) + second);
    assert FieldsText(p) + "" == FieldsText(p);
    LastLine(PutAll(st2.(section := Some("peer")), p));
  }

  lemma LastLine(st: Parsed)
    ensures ParseLines(st, Lines("")) == st
  {
    assert ParseLine(st, "") == st;
  }

  lemma CleanMapFields(fields: Fields)
    requires Distinct(fields)
    ensures (forall v :: v in FieldMap(fields).Values ==> Clean(v)) ==> AllClean(fields)
  {
    FieldMapHas(fields);
    hide FieldMap, Distinct, Clean;
  }

  lemma OnlyCleanInputsComeBack(s: Settings, serverKey: string, req: Request)
    requires Parse(Rendered(s, serverKey, req)).iface == FieldMap(IfaceFields(s, req))
    requires Parse(Rendered(s, serverKey, req)).peer == FieldMap(PeerFields(s, serverKey, req))
    ensures InputsClean(s, serverKey, req)
  {
    var i, p := IfaceFields(s, req), PeerFields(s, serverKey, req);
    IfaceKeys(s, req);
    PeerKeys(s, serverKey, req);
    CleanFields(s, serverKey, req);
    ParsedIsClean(Parsed(None, map[], map[]), Lines(Rendered(s, serverKey, req)));
    assert AllValuesClean(Parse(Rendered(s, serverKey, req)));
    hide IfaceFields, PeerFields, FieldMap, Rendered, Parse, InputsClean, Distinct, Clean, Wordy;
    CleanMapFields(i);
    CleanMapFields(p);
  }

  /**
   Parsing the rendered configuration gives exactly its keys and values if and only if every value
   given to the printer is trimmed and on one line.
   */
  lemma ConfigRoundTrip(s: Settings, serverKey: string, req: Request)
    ensures InputsClean(s, serverKey, req) <==>
              && Parse(Rendered(s, serverKey, req)).iface == FieldMap(IfaceFields(s, req))
              && Parse(Rendered(s, serverKey, req)).peer == FieldMap(PeerFields(s, serverKey, req))
  {
    var r := Parse(Rendered(s, serverKey, req));
    hide IfaceFields, PeerFields, FieldMap, Rendered, Parse, InputsClean;
    if InputsClean(s, serverKey, req) {
      CleanInputsComeBack(s, serverKey, req);
    }
    if r.iface == FieldMap(IfaceFields(s, req)) && r.peer == FieldMap(PeerFields(s, serverKey, req)) {
      OnlyCleanInputsComeBack(s, serverKey, req);
    }
  }

  // ----- what the text says, key by key -------------------------------------------------------------

  /** A decimal integer, as `+text` reads it. */
  function ReadInt(text: string): Option<int>
  {
    var minus := text != "" && text[0] == '-';
    var digits := if minus then text[1..] else text;
    if !Decimal.Numeral(digits) then None
    else
      var n: int := Decimal.Value(digits);
      Some(if minus then -n else n)
  }

  predicate Says(m: map<string, string>, key: string, n: int) { key in m && ReadInt(m[key]) == Some(n) }

  predicate Has(m: map<string, string>, key: string, value: string) { key in m && m[key] == value }

  /** The interface section of a configuration for these settings, and nothing else. */
  predicate IfaceSays(m: map<string, string>, s: Settings, req: Request)
  {
    var o := s.obfuscation;
    && Has(m, "PrivateKey", req.privateKey) && Has(m, "Address", req.address)
    && (if s.clientDNS != "" then Has(m, "DNS", s.clientDNS) else "DNS" !in m)
    && Says(m, "Jc", o.jc) && Says(m, "Jmin", o.jmin) && Says(m, "Jmax", o.jmax)
    && Says(m, "S1", o.s1) && Says(m, "S2", o.s2)
    && Says(m, "H1", o.h1) && Says(m, "H2", o.h2) && Says(m, "H3", o.h3) && Says(m, "H4", o.h4)
    && m.Keys <= {"PrivateKey", "Address", "DNS", "Jc", "Jmin", "Jmax", "S1", "S2", "H1", "H2", "H3", "H4"}
  }

  /** The peer section: all traffic goes to the server's endpoint. */
  predicate PeerSays(m: map<string, string>, s: Settings, serverKey: string, req: Request)
  {
    && Has(m, "PublicKey", serverKey)
    && (if req.presharedKey != "" then Has(m, "PresharedKey", req.presharedKey) else "PresharedKey" !in m)
    && Has(m, "AllowedIPs", "0.0.0.0/0, ::/0") && Has(m, "Endpoint", s.publicEndpoint)
    && Says(m, "PersistentKeepalive", 25)
    && m.Keys <= {"PublicKey", "PresharedKey", "AllowedIPs", "Endpoint", "PersistentKeepalive"}
  }

  lemma IntComesBack(n: int)
    ensures ReadInt(PrintInt(n)) == Some(n)
  {
    var digits := Decimal.Print(if n < 0 then -n else n);
    Decimal.PrintThenValue(if n < 0 then -n else n);
    hide Decimal.Print, Decimal.Value;
    if n < 0 {
      assert ("-" + digits)[1..] == digits;
    } else {
      assert Decimal.IsDigit(digits[0]);
    }
  }

  lemma FieldHas(fields: Fields, key: string, value: string)
    requires Distinct(fields) && (key, value) in fields
    ensures Has(FieldMap(fields), key, value)
  {
    FieldMapHas(fields);
    hide FieldMap, Distinct;
  }

  lemma FieldSays(fields: Fields, key: string, n: int)
    requires Distinct(fields) && (key, PrintInt(n)) in fields
    ensures Says(FieldMap(fields), key, n)
  {
    FieldHas(fields, key, PrintInt(n));
    IntComesBack(n);
    hide FieldMap, Distinct, PrintInt, ReadInt;
  }

  function KeysOf(fields: Fields): set<string> { set f | f in fields :: f.0 }

  lemma MapKeys(fields: Fields)
    requires Distinct(fields)
    ensures FieldMap(fields).Keys == KeysOf(fields)
  {
    FieldMapHas(fields);
    hide FieldMap, Distinct;
    forall k | k in KeysOf(fields) ensures k in FieldMap(fields) {
      var f :| f in fields && f.0 == k;
    }
  }

  /** In any list that includes the obfuscation parameters, each is said under its own key. */
  lemma ObfuscationSays(fields: Fields, o: Obfuscation)
    requires Distinct(fields) && forall f :: f in ObfuscationFields(o) ==> f in fields
    ensures var m := FieldMap(fields);
      && Says(m, "Jc", o.jc) && Says(m, "Jmin", o.jmin) && Says(m, "Jmax", o.jmax)
      && Says(m, "S1", o.s1) && Says(m, "S2", o.s2)
      && Says(m, "H1", o.h1) && Says(m, "H2", o.h2) && Says(m, "H3", o.h3) && Says(m, "H4", o.h4)
  {
    hide PrintInt, FieldMap, Distinct, Says;
    var f := ObfuscationFields(o);
    assert forall i :: 0 <= i < 9 ==> f[i] in fields;
    FieldSays(fields, f[0].0, o.jc);
    FieldSays(fields, f[1].0, o.jmin);
    FieldSays(fields, f[2].0, o.jmax);
    FieldSays(fields, f[3].0, o.s1);
    FieldSays(fields, f[4].0, o.s2);
    FieldSays(fields, f[5].0, o.h1);
    FieldSays(fields, f[6].0, o.h2);
    FieldSays(fields, f[7].0, o.h3);
    FieldSays(fields, f[8].0, o.h4);
  }

  lemma KeysOfBoth(a: Fields, b: Fields)
    ensures KeysOf(a + b) == KeysOf(a) + KeysOf(b)
  {
    assert forall f :: f in a + b <==> f in a || f in b;
    forall k | k in KeysOf(a) + KeysOf(b) ensures k in KeysOf(a + b) {
      var f :| (f in a || f in b) && f.0 == k;
      assert f in a + b;
    }
  }

  lemma FirstKeys(a: (string, string), b: (string, string), c: (string, string), optional: bool)
    ensures KeysOf([a, b] + if optional then [c] else []) == {a.0, b.0} + if optional then {c.0} else {}
  {
    var f := [a, b] + if optional then [c] else [];
    assert f[0] == a && f[1] == b && (optional ==> f[2] == c);
    assert a in f && b in f && (optional ==> c in f);
  }

  const OBFUSCATION_KEYS := {"Jc", "Jmin", "Jmax", "S1", "S2", "H1", "H2", "H3", "H4"}

  lemma ObfuscationKeySet(o: Obfuscation)
    ensures KeysOf(ObfuscationFields(o)) == OBFUSCATION_KEYS
  {
    NineKeys(ObfuscationFields(o));
    hide KeysOf, PrintInt;
  }

  lemma NineKeys(f: Fields)
    requires |f| == 9
    ensures KeysOf(f) == {f[0].0, f[1].0, f[2].0, f[3].0, f[4].0, f[5].0, f[6].0, f[7].0, f[8].0}
  {
    forall i | 0 <= i < 9 ensures f[i].0 in KeysOf(f) {
      assert f[i] in f;
    }
    forall k | k in KeysOf(f) ensures exists i :: 0 <= i < 9 && f[i].0 == k {
      var x :| x in f && x.0 == k;
    }
  }

  lemma IfaceKeySet(s: Settings, req: Request)
    ensures FieldMap(IfaceFields(s, req)).Keys
            == {"PrivateKey", "Address"} + (if s.clientDNS != "" then {"DNS"} else {}) + OBFUSCATION_KEYS
  {
    var o := ObfuscationFields(s.obfuscation);
    var key, address, dns := ("PrivateKey", req.privateKey), ("Address", req.address), ("DNS", s.clientDNS);
    var first := [key, address] + if s.clientDNS != "" then [dns] else [];
    IfaceKeys(s, req);
    MapKeys(IfaceFields(s, req));
    ObfuscationKeySet(s.obfuscation);
    hide ObfuscationFields, FieldMap, Distinct, Wordy;
    assert IfaceFields(s, req) == first + o;
    hide IfaceFields, KeysOf;
    KeysOfBoth(first, o);
    FirstKeys(key, address, dns, s.clientDNS != "");
  }

  lemma DnsIsItsOwnKey()
    ensures "DNS" !in OBFUSCATION_KEYS && "DNS" != "PrivateKey" && "DNS" != "Address"
  {
    assert "DNS"[0] == 'D' && "PrivateKey"[0] == 'P' && "Address"[0] == 'A';
    assert forall k :: k in OBFUSCATION_KEYS ==> k[0] != 'D';
  }

  lemma IfaceFieldsSay(s: Settings, req: Request)
    ensures IfaceSays(FieldMap(IfaceFields(s, req)), s, req)
  {
    var f, m := IfaceFields(s, req), FieldMap(IfaceFields(s, req));
    IfaceKeys(s, req);
    IfaceMembers(s, req);
    IfaceKeySet(s, req);
    DnsIsItsOwnKey();
    hide IfaceFields, ObfuscationFields, FieldMap, Distinct, Wordy, Says, Has;
    ObfuscationSays(f, s.obfuscation);
    FieldHas(f, "PrivateKey", req.privateKey);
    FieldHas(f, "Address", req.address);
    if s.clientDNS != "" {
      FieldHas(f, "DNS", s.clientDNS);
    } else {
      assert "DNS" !in m.Keys;
    }
  }

  lemma IfaceMembers(s: Settings, req: Request)
    ensures var f := IfaceFields(s, req);
      && ("PrivateKey", req.privateKey) in f && ("Address", req.address) in f
      && (s.clientDNS != "" ==> ("DNS", s.clientDNS) in f)
      && forall x :: x in ObfuscationFields(s.obfuscation) ==> x in f
  {
    hide ObfuscationFields;
    var f := IfaceFields(s, req);
    assert f[0] == ("PrivateKey", req.privateKey) && f[1] == ("Address", req.address);
    assert s.clientDNS != "" ==> f[2] == ("DNS", s.clientDNS);
  }

  lemma PeerKeySet(s: Settings, serverKey: string, req: Request)
    ensures FieldMap(PeerFields(s, serverKey, req)).Keys
            == {"PublicKey"} + (if req.presharedKey != "" then {"PresharedKey"} else {})
               + {"AllowedIPs", "Endpoint", "PersistentKeepalive"}
  {
    var f := PeerFields(s, serverKey, req);
    PeerKeys(s, serverKey, req);
    MapKeys(f);
    hide FieldMap, Distinct, Wordy;
    var n := |f|;
    var optional := if req.presharedKey != "" then 1 else 0;
    assert n == 4 + optional && f[0].0 == "PublicKey" && (optional == 1 ==> f[1].0 == "PresharedKey");
    assert f[n - 3].0 == "AllowedIPs" && f[n - 2].0 == "Endpoint" && f[n - 1].0 == "PersistentKeepalive";
    hide PeerFields;
    assert forall x :: x in f <==> x == f[0] || x == f[1] || x == f[n - 3] || x == f[n - 2] || x == f[n - 1];
  }

  lemma PeerFieldsSay(s: Settings, serverKey: string, req: Request)
    ensures PeerSays(FieldMap(PeerFields(s, serverKey, req)), s, serverKey, req)
  {
    var f, m := PeerFields(s, serverKey, req), FieldMap(PeerFields(s, serverKey, req));
    PeerKeys(s, serverKey, req);
    PeerMembers(s, serverKey, req);
    PeerKeySet(s, serverKey, req);
    PresharedIsItsOwnKey();
    assert PrintInt(25) == "25" by { PrintTwentyFive(); }
    hide PeerFields, FieldMap, Distinct, Wordy, Says, Has, PrintInt;
    FieldHas(f, "PublicKey", serverKey);
    FieldHas(f, "AllowedIPs", "0.0.0.0/0, ::/0");
    FieldHas(f, "Endpoint", s.publicEndpoint);
    FieldSays(f, "PersistentKeepalive", 25);
    if req.presharedKey != "" {
      FieldHas(f, "PresharedKey", req.presharedKey);
    } else {
      assert "PresharedKey" !in m.Keys;
    }
  }

  lemma PrintTwentyFive()
    ensures Decimal.Print(25) == "25"
  {
    assert Decimal.Print(2) == "2";
  }

  lemma PresharedIsItsOwnKey()
    ensures "PresharedKey" !in {"PublicKey", "AllowedIPs", "Endpoint", "PersistentKeepalive"}
  {
    assert |"PresharedKey"| == 12 && |"PublicKey"| == 9 && |"AllowedIPs"| == 10 && |"Endpoint"| == 8;
    assert |"PersistentKeepalive"| == 19;
  }

  lemma PeerMembers(s: Settings, serverKey: string, req: Request)
    ensures var f := PeerFields(s, serverKey, req);
      && ("PublicKey", serverKey) in f && (req.presharedKey != "" ==> ("PresharedKey", req.presharedKey) in f)
      && ("AllowedIPs", "0.0.0.0/0, ::/0") in f && ("Endpoint", s.publicEndpoint) in f
      && ("PersistentKeepalive", "25") in f
  {
    var f := PeerFields(s, serverKey, req);
    assert f[0] == ("PublicKey", serverKey) && (req.presharedKey != "" ==> f[1] == ("PresharedKey", req.presharedKey));
    var e := EndpointFields(s);
    assert e[0] in e && e[1] in e && e[2] in e;
    assert forall x :: x in e ==> x in f;
  }

  /**
   What the importing client reads: exactly the settings, each under its own key and the numbers by
   value, if and only if every value given to the printer is trimmed and on one line.
   */
  lemma ConfigSaysSettings(s: Settings, serverKey: string, req: Request)
    ensures var r := Parse(Rendered(s, serverKey, req));
            InputsClean(s, serverKey, req) <==> IfaceSays(r.iface, s, req) && PeerSays(r.peer, s, serverKey, req)
  {
    var r := Parse(Rendered(s, serverKey, req));
    if InputsClean(s, serverKey, req) {
      CleanInputsComeBack(s, serverKey, req);
      IfaceFieldsSay(s, req);
      PeerFieldsSay(s, serverKey, req);
      hide Parse, Rendered;
    }
    if IfaceSays(r.iface, s, req) && PeerSays(r.peer, s, serverKey, req) {
      ParsedIsClean(Parsed(None, map[], map[]), Lines(Rendered(s, serverKey, req)));
      assert AllValuesClean(r);
      assert Clean("");
      hide Parse, Rendered, Clean, Says;
    }
  }

  // ----- endpoints ---------------------------------------------------------------------------------

  /** Text that `.+` matches: no line terminators. */
  predicate Dots(s: string)
  {
    s != "" && forall i :: 0 <= i < |s| ==> s[i] != '\n' && s[i] != '\r' && s[i] != '\U{2028}' && s[i] != '\U{2029}'
  }

  /** A text in brackets, a colon and digits; digits have no colon, so the last one ends the bracket. */
  function Bracketed(s: string): Option<(string, string)>
  {
    var i := LastIndexOf(s, ':');
    if i >= 3 && s[0] == '[' && s[i - 1] == ']' && Dots(s[1..i - 1]) && Decimal.Numeral(s[i + 1..]) then
      Some((s[1..i - 1], s[i + 1..]))
    else None
  }

  function SplitEndpoint(s: string): (string, string)
  {
    if s == "" then ("", "")
    else
      var m := Bracketed(s);
      if m.Some? then m.value
      else
        var i := LastIndexOf(s, ':');
        if i < 0 then (s, "") else (s[..i], s[i + 1..])
  }

  lemma NoColonAfter(host: string, port: string)
    requires ':' !in port
    ensures var s := host + ":" + port; forall j :: |host| < j < |s| ==> s[j] != ':'
  {
    var s := host + ":" + port;
    forall j | |host| < j < |s| ensures s[j] != ':' {
      assert s[j] == port[j - |host| - 1];
    }
  }

  lemma LastColon(host: string, port: string)
    requires ':' !in port
    ensures LastIndexOf(host + ":" + port, ':') == |host|
  {
    hide LastIndexOf;
    var s := host + ":" + port;
    assert s[|host|] == ':';
    NoColonAfter(host, port);
  }

  lemma BracketedTakesApart(s: string)
    requires Bracketed(s).Some?
    ensures var (host, port) := Bracketed(s).value;
            s == "[" + host + "]:" + port && Dots(host) && Decimal.Numeral(port)
  {
    hide LastIndexOf, Dots, Decimal.Numeral;
    var i := LastIndexOf(s, ':');
    assert s == s[..1] + s[1..i - 1] + s[i - 1..i + 1] + s[i + 1..];
    assert s[..1] == "[" && s[i - 1..i + 1] == "]:";
  }

  lemma BracketedTakesBack(host: string, port: string)
    requires Dots(host) && Decimal.Numeral(port)
    ensures Bracketed("[" + host + "]:" + port) == Some((host, port))
  {
    var s := "[" + host + "]:" + port;
    assert host != "" && ':' !in port;
    hide LastIndexOf, Dots, Decimal.Numeral;
    assert s == "[" + host + "]" + ":" + port;
    LastColon("[" + host + "]", port);
    assert s[1..|host| + 1] == host && s[|host| + 3..] == port && s[|host| + 1] == ']';
  }

  /** The search for the last colon finds the one way in which the regular expression can match. */
  lemma BracketedMatches(s: string, host: string, port: string)
    ensures Bracketed(s) == Some((host, port)) <==>
              s == "[" + host + "]:" + port && Dots(host) && Decimal.Numeral(port)
  {
    hide Bracketed, Dots, Decimal.Numeral;
    if Bracketed(s).Some? {
      BracketedTakesApart(s);
    }
    if s == "[" + host + "]:" + port && Dots(host) && Decimal.Numeral(port) {
      BracketedTakesBack(host, port);
    }
  }

  /** A host in brackets and its port are recovered. */
  lemma BracketedEndpoint(host: string, port: string)
    requires Dots(host) && Decimal.Numeral(port)
    ensures SplitEndpoint("[" + host + "]:" + port) == (host, port)
  {
    BracketedMatches("[" + host + "]:" + port, host, port);
    hide Bracketed;
  }

  /** Whether the host would lose brackets of its own. */
  predicate InBrackets(host: string)
  {
    |host| >= 3 && host[0] == '[' && host[|host| - 1] == ']' && Dots(host[1..|host| - 1])
  }

  /** Any host and a colon-free port are recovered from `host:port` unless the host stands in brackets before digits. */
  lemma PlainEndpoint(host: string, port: string)
    requires ':' !in port
    ensures SplitEndpoint(host + ":" + port) == (host, port) <==> !(InBrackets(host) && Decimal.Numeral(port))
  {
    var s := host + ":" + port;
    LastColon(host, port);
    assert s[..|host|] == host && s[|host| + 1..] == port;
    assert |host| > 0 ==> s[0] == host[0] && s[|host| - 1] == host[|host| - 1];
    assert |host| >= 3 ==> s[1..|host| - 1] == host[1..|host| - 1];
    hide LastIndexOf, Dots, Decimal.Numeral;
  }

  /** The endpoint set on the server is split by the importing client into the host and port it names. */
  lemma EndpointArrives(s: Settings, serverKey: string, req: Request, host: string, port: string)
    requires InputsClean(s, serverKey, req) && Decimal.Numeral(port)
    requires || (s.publicEndpoint == host + ":" + port && !InBrackets(host))
             || (s.publicEndpoint == "[" + host + "]:" + port && Dots(host))
    ensures var r := Parse(Rendered(s, serverKey, req));
            "Endpoint" in r.peer && SplitEndpoint(r.peer["Endpoint"]) == (host, port)
  {
    ConfigSaysSettings(s, serverKey, req);
    hide Parse, Rendered, InputsClean, SplitEndpoint, Dots, InBrackets;
    if s.publicEndpoint == host + ":" + port && !InBrackets(host) {
      assert ':' !in port;
      PlainEndpoint(host, port);
    } else {
      BracketedEndpoint(host, port);
    }
  }
}
