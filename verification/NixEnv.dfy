/** The profile manifest of userland/nix-env.c: one line for each active entry, name, tab, store path. */
module NixEnv {
  import opened Helpers
  import Stdio

  const MAX_PROFILE_ENTRIES := 128
  const MAX_PATH_LEN := 512
  const NAME_LEN := 256
  const BUFFER := 4096

  datatype Entry = Entry(name: string, path: string, active: bool)

  // ---- text ----

  /** The place of the first c, or the length. */
  function Index(s: string, c: char): (k: nat)
    ensures k <= |s| && (k < |s| ==> s[k] == c)
    ensures forall j :: 0 <= j < k ==> s[j] != c
  {
    if s == "" || s[0] == c then 0 else 1 + Index(s[1..], c)
  }

  lemma {:induction false} IndexIs(s: string, c: char, k: nat)
    requires k <= |s| && (k < |s| ==> s[k] == c) && forall j :: 0 <= j < k ==> s[j] != c
    ensures Index(s, c) == k
  {
    if k > 0 { IndexIs(s[1..], c, k - 1); }
  }

  /** The string that starts a buffer, up to its NUL. */
  function CString(s: string): string { s[..Index(s, '\0')] }

  /** name, tab, path, newline */
  function Line(e: Entry): string { e.name + "\t" + e.path + "\n" }

  /** What write_manifest writes. */
  function Print(es: seq<Entry>): string {
    if es == [] then "" else Print(es[..|es| - 1]) + if es[|es| - 1].active then Line(es[|es| - 1]) else ""
  }

  /** parse_manifest_line: the name goes to the first tab, and the path to the end of the line, as far
      as their fields reach. */
  function ParseLine(line: string): Option<Entry> {
    var i := Min(Index(line, '\t'), NAME_LEN - 1);
    if i == |line| || line[i] != '\t' then None
    else
      var rest := line[i + 1..];
      Some(Entry(line[..i], rest[..Min(Index(rest, '\n'), MAX_PATH_LEN - 1)], true))
  }

  /** The entry of a line, if it is one. */
  function LineEntry(line: string): (h: seq<Entry>)
    ensures |h| <= 1
  {
    if ParseLine(line).Some? then [ParseLine(line).value] else []
  }

  function FirstLine(text: string): string { text[..Index(text, '\n')] }

  /** The entries of the lines of a text, at most max. */
  function ParseText(text: string, max: nat): seq<Entry>
    decreases |text|, 1
  {
    if text == "" || max == 0 then []
    else LineEntry(FirstLine(text)) + ParseRest(text, max - |LineEntry(FirstLine(text))|)
  }

  /** Those of the lines after the first. */
  function ParseRest(text: string, max: nat): seq<Entry>
    decreases |text|, 0
  {
    var k := Index(text, '\n');
    if k < |text| then ParseText(text[k + 1..], max) else []
  }

  /** What read_manifest makes of a file: only the first 4095 bytes are looked at. */
  function Parse(file: string, max: nat): seq<Entry> {
    ParseText(CString(file[..Min(|file|, BUFFER - 1)]), max)
  }

  predicate Without(s: string, c: char) { forall k :: 0 <= k < |s| ==> s[k] != c }

  /** A string that fits one line. */
  predicate OneLine(s: string) { Without(s, '\n') && Without(s, '\0') }

  /** What a line can hold. */
  predicate Storable(e: Entry) {
    OneLine(e.name) && OneLine(e.path) && Without(e.name, '\t') && |e.name| < NAME_LEN && |e.path| < MAX_PATH_LEN
  }

  function Active(es: seq<Entry>): seq<Entry> {
    if es == [] then [] else Active(es[..|es| - 1]) + if es[|es| - 1].active then [es[|es| - 1]] else []
  }

  // ---- printing and parsing ----

  /** An entry survives its line exactly when its name has no tab and both parts fit their fields. */
  lemma LineReadsBack(e: Entry)
    requires e.active && OneLine(e.name) && OneLine(e.path)
    ensures ParseLine(e.name + "\t" + e.path) == Some(e) <==> Storable(e)
  {
    hide Index;
    var line := e.name + "\t" + e.path;
    var i := Index(line, '\t');
    assert line[|e.name|] == '\t';
    if Without(e.name, '\t') {
      IndexIs(line, '\t', |e.name|);
      assert line[..|e.name|] == e.name && line[|e.name| + 1..] == e.path;
      if |e.name| >= NAME_LEN { assert line[NAME_LEN - 1] == e.name[NAME_LEN - 1]; }
      if |e.path| >= MAX_PATH_LEN { assert |e.path[..MAX_PATH_LEN - 1]| != |e.path|; }
      IndexIs(e.path, '\n', |e.path|);
      assert e.path[..|e.path|] == e.path;
    } else {
      var t :| 0 <= t < |e.name| && e.name[t] == '\t';
      assert line[t] == '\t';
    }
  }

  /** The empty string is no line. */
  lemma NoLine()
    ensures ParseLine("") == None
  {
  }

  /** Every entry that is read is storable and active. */
  lemma {:induction false} ParsedStorable(text: string, max: nat)
    requires Without(text, '\0')
    ensures forall e :: e in ParseText(text, max) ==> Storable(e) && e.active
    ensures |ParseText(text, max)| <= max
    decreases |text|
  {
    hide Without, LineEntry, FirstLine, Storable;
    if text != "" && max != 0 {
      CutText(text);
      ParsedLine(FirstLine(text));
      var k := Index(text, '\n');
      if k < |text| { ParsedStorable(text[k + 1..], max - |LineEntry(FirstLine(text))|); }
    }
  }

  lemma CutText(text: string)
    requires Without(text, '\0')
    ensures OneLine(FirstLine(text))
    ensures Index(text, '\n') < |text| ==> Without(text[Index(text, '\n') + 1..], '\0')
  {
    var k := Index(text, '\n');
    assert forall j :: 0 <= j < k ==> text[..k][j] == text[j];
  }

  lemma ParsedLine(line: string)
    requires OneLine(line)
    ensures forall e :: e in LineEntry(line) ==> Storable(e) && e.active
  {
    hide Index;
    if ParseLine(line).Some? {
      var i := Min(Index(line, '\t'), NAME_LEN - 1);
      var rest := line[i + 1..];
      var k := Min(Index(rest, '\n'), MAX_PATH_LEN - 1);
      assert forall j :: 0 <= j < i ==> line[..i][j] == line[j];
      assert forall j :: 0 <= j < k ==> rest[..k][j] == line[i + 1 + j];
    }
  }

  /** Reading a line and the text after it. */
  lemma ParseCons(e: Entry, text: string, max: nat)
    requires Storable(e) && e.active && max > 0
    ensures ParseText(Line(e) + text, max) == [e] + ParseText(text, max - 1)
  {
    hide Index, ParseLine, ParseText, Storable, Line, LineEntry, FirstLine;
    LineIsFirst(e, text);
    LineEntryIs(e);
    ParseStep(Line(e) + text, max);
  }

  lemma LineEntryIs(e: Entry)
    requires Storable(e) && e.active
    ensures LineEntry(e.name + "\t" + e.path) == [e]
  {
    hide ParseLine, Storable;
    StorableLine(e);
    LineReadsBack(e);
  }

  lemma StorableLine(e: Entry)
    requires Storable(e)
    ensures OneLine(e.name) && OneLine(e.path)
  {
  }

  lemma LineIsFirst(e: Entry, text: string)
    requires Storable(e)
    ensures var all, line := Line(e) + text, e.name + "\t" + e.path;
      Index(all, '\n') == |line| && FirstLine(all) == line && |line| < |all| && all[|line| + 1..] == text
    ensures OneLine(e.name) && OneLine(e.path)
  {
    hide Index;
    var all, line := Line(e) + text, e.name + "\t" + e.path;
    assert all == line + ("\n" + text);
    assert forall j :: 0 <= j < |line| ==> all[j] == line[j];
    IndexIs(all, '\n', |line|);
    assert all[..|line|] == line && all[|line| + 1..] == text;
  }

  lemma {:induction false} ParsePrinted(es: seq<Entry>, text: string, max: nat)
    requires forall e :: e in es && e.active ==> Storable(e)
    requires |Active(es)| <= max
    ensures ParseText(Print(es) + text, max) == Active(es) + ParseText(text, max - |Active(es)|)
    decreases |es|
  {
    hide ParseText, Line;
    if es == [] {
      assert Print(es) + text == text;
    } else {
      var front, e := es[..|es| - 1], es[|es| - 1];
      var tail := if e.active then Line(e) else "";
      assert Print(es) + text == Print(front) + (tail + text);
      ParsePrinted(front, tail + text, max);
      if e.active { ParseCons(e, text, max - |Active(front)|); } else { assert tail + text == text; }
    }
  }

  lemma {:induction false} PrintNoNul(es: seq<Entry>)
    requires forall e :: e in es && e.active ==> Storable(e)
    ensures Without(Print(es), '\0')
  {
    if es != [] { PrintNoNul(es[..|es| - 1]); }
  }

  lemma {:induction false} PrintSize(es: seq<Entry>)
    ensures |Print(es)| >= |Active(es)|
    ensures Print(Active(es)) == Print(es)
  {
    if es != [] {
      var n := |es| - 1;
      PrintSize(es[..n]);
      PrintMore(Active(es[..n]), es[n]);
      assert !es[n].active ==> Active(es) == Active(es[..n]);
    }
  }

  lemma PrintMore(es: seq<Entry>, e: Entry)
    ensures Print(es + [e]) == Print(es) + if e.active then Line(e) else ""
  {
    assert (es + [e])[..|es|] == es;
  }

  lemma {:induction false} PrintJoin(es: seq<Entry>, fs: seq<Entry>)
    ensures Print(es + fs) == Print(es) + Print(fs)
    decreases |fs|
  {
    hide Print, Line;
    if fs == [] {
      PrintOne([]);
      assert es + fs == es;
    } else {
      var front, e := fs[..|fs| - 1], fs[|fs| - 1];
      assert fs == front + [e];
      assert es + fs == (es + front) + [e];
      PrintJoin(es, front);
      PrintMore(es + front, e);
      PrintMore(front, e);
    }
  }

  lemma PrintOne(h: seq<Entry>)
    requires |h| <= 1
    ensures Print(h) == if h == [] || !h[0].active then "" else Line(h[0])
  {
    if h != [] { PrintMore([], h[0]); assert [] + h == h && [] + [h[0]] == h; }
  }

  /** The lines of the entries read take no more room than the text, but for one newline. */
  lemma {:induction false} ParsedFits(text: string, max: nat)
    ensures |Print(ParseText(text, max))| <= |text| + 1
    decreases |text|
  {
    hide Print, ParseLine, Line;
    if text != "" && max != 0 {
      var k, h := Index(text, '\n'), LineEntry(FirstLine(text));
      LineFits(FirstLine(text));
      PrintJoin(h, ParseRest(text, max - |h|));
      if k < |text| {
        ParsedFits(text[k + 1..], max - |h|);
      } else {
        PrintOne([]);
      }
    } else {
      PrintOne([]);
    }
  }

  lemma LineFits(line: string)
    ensures |Print(LineEntry(line))| <= |line| + 1
  {
    PrintOne(LineEntry(line));
  }

  lemma ParseStep(text: string, max: nat)
    requires text != "" && max > 0
    ensures var k := Index(text, '\n');
      var h := LineEntry(FirstLine(text));
      ParseText(text, max) == h + if k < |text| then ParseText(text[k + 1..], max - |h|) else []
  {
    hide LineEntry, FirstLine, Index;
  }

  lemma ParseNone(text: string, max: nat)
    requires text == "" || max == 0
    ensures ParseText(text, max) == []
  {
  }

  /** The text without its last newline reads alike. */
  lemma {:induction false} LastNewline(text: string, max: nat)
    requires text != "" && text[|text| - 1] == '\n'
    ensures ParseText(text[..|text| - 1], max) == ParseText(text, max)
    decreases |text|
  {
    hide LineEntry, ParseText, Index;
    var t, k := text[..|text| - 1], Index(text, '\n');
    if max == 0 {
      ParseNone(text, max);
      ParseNone(t, max);
    } else {
      var h := LineEntry(text[..k]);
      IndexIs(t, '\n', k);
      assert t[..k] == text[..k];
      ParseStep(text, max);
      if k == |t| {
        ParseNone(text[k + 1..], max - |h|);
        if t == "" { EmptyLine(); ParseNone(t, max); } else { ParseStep(t, max); }
      } else {
        ParseStep(t, max);
        assert text[k + 1..][..|text[k + 1..]| - 1] == t[k + 1..];
        LastNewline(text[k + 1..], max - |h|);
      }
    }
  }

  lemma EmptyLine()
    ensures LineEntry("") == []
  {
    NoLine();
  }

  lemma EndsInNewline(es: seq<Entry>)
    requires Active(es) != []
    ensures var t := Print(es); t != "" && t[|t| - 1] == '\n'
  {
    hide Line;
    if !es[|es| - 1].active { EndsInNewline(es[..|es| - 1]); } else { LineEnds(es[|es| - 1]); }
  }

  lemma LineEnds(e: Entry)
    ensures Line(e) != "" && Line(e)[|Line(e)| - 1] == '\n'
  {
  }

  /** read_manifest after write_manifest gives the active entries, in order, exactly when they are
      no more than the array holds and the text fits the buffer, whose last byte may cost no more
      than the last newline. */
  lemma ReadBack(es: seq<Entry>, max: nat)
    requires forall e :: e in es && e.active ==> Storable(e)
    ensures Parse(Print(es), max) == Active(es) <==> |Active(es)| <= max && |Print(es)| <= BUFFER
  {
    hide ParseText, Print, Active, Storable;
    var t := Print(es);
    var u := t[..Min(|t|, BUFFER - 1)];
    PrintNoNul(es);
    IndexIs(u, '\0', |u|);
    assert u[..|u|] == u && t[..|t|] == t && t + "" == t;
    PrintSize(es);
    if Parse(t, max) == Active(es) {
      ParsedFits(u, max);
      ParsedStorable(u, max);
    } else if |Active(es)| <= max {
      ParsePrinted(es, "", max);
      ParseNone("", max - |Active(es)|);
      if |t| == BUFFER {
        NothingActive(es);
        EndsInNewline(es);
        LastNewline(t, max);
      }
    }
  }

  lemma ActiveMore(es: seq<Entry>, e: Entry)
    ensures Active(es + [e]) == Active(es) + if e.active then [e] else []
  {
    assert (es + [e])[..|es|] == es;
  }

  lemma {:induction false} PrintSame(e: Entry, n: nat)
    requires e.active
    ensures |Print(seq(n, _ => e))| == n * |Line(e)| && Active(seq(n, _ => e)) == seq(n, _ => e)
  {
    hide Line, Print, Active;
    if n == 0 {
      PrintOne([]);
      assert seq(0, _ => e) == [];
      NothingThere();
    } else {
      var front := seq(n - 1, _ => e);
      assert seq(n, _ => e) == front + [e];
      PrintSame(e, n - 1);
      PrintMore(front, e);
      ActiveMore(front, e);
      assert n * |Line(e)| == (n - 1) * |Line(e)| + |Line(e)|;
    }
  }

  lemma NothingThere()
    ensures Active([]) == []
  {
  }

  /** Nine packages with paths of 500 characters: the profile is written, and not read back. */
  lemma ReadBackInstance()
    ensures var es := seq(9, _ => Entry("a", seq(500, _ => 'x'), true));
      && (forall e :: e in es ==> Storable(e))
      && |Print(es)| > BUFFER && Parse(Print(es), MAX_PROFILE_ENTRIES) != Active(es)
  {
    hide Print, Active, Parse;
    var e := Entry("a", seq(500, _ => 'x'), true);
    var es := seq(9, _ => e);
    assert |Line(e)| == 503 && Storable(e);
    PrintSame(e, 9);
    ReadBack(es, MAX_PROFILE_ENTRIES);
  }

  lemma NothingActive(es: seq<Entry>)
    ensures Active(es) == [] ==> Print(es) == ""
  {
    PrintSize(es);
    PrintOne([]);
  }

  /** The line is what snprintf makes of the entry. */
  lemma LineFormat(e: Entry)
    ensures Stdio.Render("%s\t%s\n", [Stdio.Text(e.name), Stdio.Text(e.path)]) == Stdio.Done(Line(e), [])
  {
    hide Stdio.Render;
    var name, path := Stdio.Text(e.name), Stdio.Text(e.path);
    assert "%s\t%s\n" == "%s" + (['\t'] + ("%s" + (['\n'] + ""))) && [name, path] == [name] + ([path] + []);
    Stdio.RenderNone([]);
    Stdio.RenderPlain('\n', "", []);
    Stdio.RenderString(e.path, ['\n'] + "", []);
    Stdio.RenderPlain('\t', "%s" + (['\n'] + ""), [path] + []);
    Stdio.RenderString(e.name, ['\t'] + ("%s" + (['\n'] + "")), [path] + []);
    assert e.name + (['\t'] + (e.path + (['\n'] + ""))) == Line(e);
  }

  // ---- the profile as a map ----

  /** The first active entry with the name, or the length. */
  function Find(es: seq<Entry>, name: string): (i: nat)
    ensures i <= |es| && (i < |es| ==> es[i].active && es[i].name == name)
    ensures forall j :: 0 <= j < i ==> !(es[j].active && es[j].name == name)
  {
    if es == [] || (es[0].active && es[0].name == name) then 0 else 1 + Find(es[1..], name)
  }

  /** What cmd_install makes of the entries; None when the profile is full. */
  function Install(es: seq<Entry>, name: string, path: string): Option<seq<Entry>> {
    var i := Find(es, name);
    if i < |es| then Some(es[i := es[i].(path := path)])
    else if |es| >= MAX_PROFILE_ENTRIES then None
    else Some(es + [Entry(name, path, true)])
  }

  /** What cmd_remove makes of them; None when there is no such package. */
  function Remove(es: seq<Entry>, name: string): Option<seq<Entry>> {
    var i := Find(es, name);
    if i < |es| then Some(es[i := es[i].(active := false)]) else None
  }

  /** Names to paths: the first active entry of a name counts. */
  function MapOf(es: seq<Entry>): map<string, string> {
    if es == [] then map[] else
      var m, e := MapOf(es[..|es| - 1]), es[|es| - 1];
      if e.active && e.name !in m then m[e.name := e.path] else m
  }

  predicate SameName(es: seq<Entry>, i: nat, j: nat) {
    i < |es| && j < |es| && es[i].active && es[j].active && es[i].name == es[j].name
  }

  /** No two active entries have the same name. */
  ghost predicate Distinct(es: seq<Entry>) {
    forall i, j :: SameName(es, i, j) ==> i == j
  }

  lemma {:induction false} MapFind(es: seq<Entry>, name: string)
    ensures name in MapOf(es) <==> Find(es, name) < |es|
    ensures name in MapOf(es) ==> MapOf(es)[name] == es[Find(es, name)].path
  {
    if es != [] {
      var n := |es| - 1;
      MapFind(es[..n], name);
      FindFront(es, name);
    }
  }

  lemma FindFront(es: seq<Entry>, name: string)
    requires es != []
    ensures var n := |es| - 1; var k := Find(es[..n], name);
      Find(es, name) == if k < n then k else if es[n].active && es[n].name == name then n else n + 1
  {
    hide Find;
    var n := |es| - 1;
    var k := Find(es[..n], name);
    assert forall j :: 0 <= j < n ==> es[..n][j] == es[j];
    FindIs(es, name, if k < n then k else if es[n].active && es[n].name == name then n else n + 1);
  }

  lemma {:induction false} FindIs(es: seq<Entry>, name: string, k: nat)
    requires k <= |es| && (k < |es| ==> es[k].active && es[k].name == name)
    requires forall j :: 0 <= j < k ==> !(es[j].active && es[j].name == name)
    ensures Find(es, name) == k
  {
    if k > 0 { FindIs(es[1..], name, k - 1); }
  }

  /** Installing is updating the map, and keeps names distinct. */
  lemma InstallMap(es: seq<Entry>, name: string, path: string)
    requires Install(es, name, path).Some?
    ensures var es' := Install(es, name, path).value;
      MapOf(es') == MapOf(es)[name := path] && (Distinct(es) ==> Distinct(es'))
  {
    hide Find, MapOf;
    var i, es' := Find(es, name), Install(es, name, path).value;
    if Distinct(es) {
      forall a: nat, b: nat | SameName(es', a, b) ensures a == b {
        assert a < |es| && b < |es| ==> SameName(es, a, b);
      }
    }
    forall x: string ensures x in MapOf(es') <==> x in MapOf(es) || x == name
      ensures x in MapOf(es') ==> MapOf(es')[x] == if x == name then path else MapOf(es)[x]
    {
      MapFind(es, x);
      MapFind(es', x);
      FindIs(es', x, if x == name then i else if Find(es, x) < |es| then Find(es, x) else |es'|);
    }
  }

  /** The name has no second active entry. */
  ghost predicate Once(es: seq<Entry>, name: string) {
    forall i: nat, j: nat :: SameName(es, i, j) && es[i].name == name ==> i == j
  }

  /** Removing deletes the name from the map exactly when it was there once; with a second entry the
      name comes back with that one's path. */
  lemma RemoveMap(es: seq<Entry>, name: string)
    ensures Remove(es, name).Some? <==> name in MapOf(es)
    ensures Remove(es, name).Some? ==>
      var es' := Remove(es, name).value;
      (MapOf(es') == MapOf(es) - {name} <==> Once(es, name)) && (Distinct(es) ==> Distinct(es'))
  {
    hide Find, MapOf;
    MapFind(es, name);
    if Remove(es, name).Some? {
      var i, es' := Find(es, name), Remove(es, name).value;
      assert forall a, b :: SameName(es', a, b) ==> SameName(es, a, b);
      MapFind(es', name);
      forall x: string | x != name
        ensures x in MapOf(es') <==> x in MapOf(es)
        ensures x in MapOf(es') ==> MapOf(es')[x] == MapOf(es)[x]
      {
        MapFind(es, x);
        MapFind(es', x);
        FindIs(es', x, if Find(es, x) < |es| then Find(es, x) else |es'|);
      }
      RemovedOnce(es, name);
      if Once(es, name) { assert MapOf(es') == MapOf(es) - {name}; }
    }
  }

  lemma RemovedOnce(es: seq<Entry>, name: string)
    requires Remove(es, name).Some?
    ensures Find(Remove(es, name).value, name) == |es| <==> Once(es, name)
  {
    hide Find;
    var i, es' := Find(es, name), Remove(es, name).value;
    if Once(es, name) {
      forall j: nat | j < |es'| ensures !(es'[j].active && es'[j].name == name) {
        assert SameName(es, i, j) ==> i == j;
      }
      FindIs(es', name, |es'|);
    } else {
      var a: nat, b: nat :| SameName(es, a, b) && es[a].name == name && a != b;
      var c := if a == i then b else a;
      assert es'[c].active && es'[c].name == name;
    }
  }

  lemma {:induction false} ActiveMembers(es: seq<Entry>)
    ensures forall e :: e in Active(es) <==> e in es && e.active
    ensures |Active(es)| <= |es|
  {
    if es != [] {
      var n := |es| - 1;
      ActiveMembers(es[..n]);
      assert es == es[..n] + [es[n]];
    }
  }

  lemma {:induction false} ActiveMap(es: seq<Entry>)
    ensures MapOf(Active(es)) == MapOf(es)
  {
    if es != [] {
      var front := Active(es[..|es| - 1]);
      ActiveMap(es[..|es| - 1]);
      if es[|es| - 1].active {
        assert Active(es)[..|front|] == front;
      } else {
        assert Active(es) == front;
      }
    }
  }

  lemma {:induction false} ActiveDistinct(es: seq<Entry>)
    requires Distinct(es)
    ensures Distinct(Active(es))
  {
    if es != [] {
      var n := |es| - 1;
      assert forall i, j :: SameName(es[..n], i, j) ==> SameName(es, i, j);
      ActiveDistinct(es[..n]);
      ActiveMembers(es[..n]);
      var front, all := Active(es[..n]), Active(es);
      forall i: nat, j: nat | SameName(all, i, j) ensures i == j {
        assert SameName(front, i, j) ==> i == j;
        if es[n].active {
          if i < |front| { ActiveIn(es, front, i); }
          if j < |front| { ActiveIn(es, front, j); }
        } else {
          assert all == front;
        }
      }
    }
  }

  lemma ActiveIn(es: seq<Entry>, front: seq<Entry>, i: nat)
    requires Distinct(es) && es != [] && es[|es| - 1].active && i < |front|
    requires front[i] in es[..|es| - 1] && front[i].active
    ensures front[i].name != es[|es| - 1].name
  {
    var n := |es| - 1;
    var k :| 0 <= k < n && es[k] == front[i];
    assert !SameName(es, k, n);
  }

  /** After an install the profile read back is the list with the package at its path, exactly when
      that fits the buffer; it is then the old map with the name at the path. */
  lemma InstallUpdates(file: string, name: string, path: string)
    requires Storable(Entry(name, path, true)) && Install(Parse(file, MAX_PROFILE_ENTRIES), name, path).Some?
    ensures var was := Parse(file, MAX_PROFILE_ENTRIES);
      var es := Install(was, name, path).value;
      var now := Parse(Print(es), MAX_PROFILE_ENTRIES);
      && (now == es <==> |Print(es)| <= BUFFER)
      && (now == es ==> MapOf(now) == MapOf(was)[name := path] && (Distinct(was) ==> Distinct(now)))
  {
    hide ParseText, Print, Active, MapOf, Find, Distinct;
    var was := Parse(file, MAX_PROFILE_ENTRIES);
    var es := Install(was, name, path).value;
    FileStorable(file);
    InstallMap(was, name, path);
    AllActive(es);
    ReadBack(es, MAX_PROFILE_ENTRIES);
  }

  /** Lines do not get longer when an entry is made inactive. */
  lemma {:induction false} PrintShrinks(es: seq<Entry>, i: nat)
    requires i < |es|
    ensures |Print(es[i := es[i].(active := false)])| <= |Print(es)|
  {
    hide Line;
    var n, fs := |es| - 1, es[i := es[i].(active := false)];
    if i < n {
      assert fs[..n] == es[..n][i := es[i].(active := false)];
      PrintShrinks(es[..n], i);
    } else {
      assert fs[..n] == es[..n];
    }
  }

  /** What was read from a file takes no more than the buffer, and neither does what is left after a
      removal. */
  lemma RemoveFits(file: string, name: string)
    requires Remove(Parse(file, MAX_PROFILE_ENTRIES), name).Some?
    ensures |Print(Remove(Parse(file, MAX_PROFILE_ENTRIES), name).value)| <= BUFFER
  {
    hide ParseText, Print, Find;
    var text := CString(file[..Min(|file|, BUFFER - 1)]);
    ParsedFits(text, MAX_PROFILE_ENTRIES);
    PrintShrinks(ParseText(text, MAX_PROFILE_ENTRIES), Find(ParseText(text, MAX_PROFILE_ENTRIES), name));
  }

  /** After a removal the profile read back is the active rest; the name is gone exactly when it was
      there once. */
  lemma RemoveUpdates(file: string, name: string)
    requires Remove(Parse(file, MAX_PROFILE_ENTRIES), name).Some?
    ensures var was := Parse(file, MAX_PROFILE_ENTRIES);
      var es := Remove(was, name).value;
      var now := Parse(Print(es), MAX_PROFILE_ENTRIES);
      && now == Active(es)
      && (MapOf(now) == MapOf(was) - {name} <==> Once(was, name)) && (Distinct(was) ==> Distinct(now))
  {
    hide ParseText, Print, Active, MapOf, Find, Distinct, Once;
    var was := Parse(file, MAX_PROFILE_ENTRIES);
    var es := Remove(was, name).value;
    FileStorable(file);
    RemoveMap(was, name);
    RemoveFits(file, name);
    ActiveMap(es);
    if Distinct(es) { ActiveDistinct(es); }
    ActiveMembers(es);
    ReadBack(es, MAX_PROFILE_ENTRIES);
  }

  lemma {:induction false} AllActive(es: seq<Entry>)
    requires forall e :: e in es ==> e.active
    ensures Active(es) == es
  {
    if es == [] {
      NothingThere();
    } else {
      hide Active;
      var front, e := es[..|es| - 1], es[|es| - 1];
      assert es == front + [e];
      AllActive(front);
      ActiveMore(front, e);
    }
  }

  lemma FileStorable(file: string)
    ensures forall e :: e in Parse(file, MAX_PROFILE_ENTRIES) ==> Storable(e) && e.active
    ensures |Parse(file, MAX_PROFILE_ENTRIES)| <= MAX_PROFILE_ENTRIES
  {
    ParsedStorable(CString(file[..Min(|file|, BUFFER - 1)]), MAX_PROFILE_ENTRIES);
  }

  // ---- the program ----

  /** What follows the last slash. */
  function BaseName(s: string): string
    decreases |s|
  {
    var k := Index(s, '/');
    if k == |s| then s else BaseName(s[k + 1..])
  }

  /** A store path ends in a hash, a dash and the package's name. */
  function PackageName(storePath: string): string {
    var b := BaseName(storePath);
    var k := Index(b, '-');
    if k == |b| then b else b[k + 1..]
  }

  lemma {:induction false} LastPart(dir: string, base: string)
    requires Without(base, '/')
    ensures BaseName(base) == base && BaseName(dir + "/" + base) == base
    decreases |dir|
  {
    hide Index;
    IndexIs(base, '/', |base|);
    var s, k := dir + "/" + base, Index(dir, '/');
    assert forall j :: 0 <= j < |dir| ==> s[j] == dir[j];
    IndexIs(s, '/', k);
    if k == |dir| {
      assert s[k + 1..] == base;
    } else {
      LastPart(dir[k + 1..], base);
      assert s[k + 1..] == dir[k + 1..] + "/" + base;
    }
  }

  /** Of dir/hash-name the program takes name, which may have dashes of its own; without a dash it takes
      what follows the last slash. */
  lemma PackageOf(dir: string, hash: string, name: string)
    requires Without(hash, '/') && Without(hash, '-') && Without(name, '/')
    ensures PackageName(dir + "/" + hash + "-" + name) == name && PackageName(hash + "-" + name) == name
    ensures PackageName(dir + "/" + hash) == hash && PackageName(hash) == hash
  {
    hide Index, BaseName;
    var base := hash + "-" + name;
    LastPart(dir, base);
    LastPart(dir, hash);
    assert dir + "/" + hash + "-" + name == dir + "/" + base;
    IndexIs(base, '-', |hash|);
    IndexIs(hash, '-', |hash|);
    assert base[|hash| + 1..] == name;
  }

  const NO_ENTRY := Entry("", "", false)

  predicate FieldsFit(e: Entry) { |e.name| < NAME_LEN && |e.path| < MAX_PATH_LEN }

  /** The NUL-terminated string at `line` of the buffer. */
  predicate Holds(b: seq<char>, line: nat, s: string) {
    line + |s| < |b| && b[line..line + |s|] == s && b[line + |s|] == '\0' && Without(s, '\0')
  }

  lemma HoldsAt(b: seq<char>, line: nat, s: string)
    requires Holds(b, line, s)
    ensures forall i :: line <= i < line + |s| ==> b[i] == s[i - line]
  {
    forall i | line <= i < line + |s| ensures b[i] == s[i - line] {
      assert b[i] == b[line..line + |s|][i - line];
    }
  }

  lemma HoldsBounds(b: seq<char>, line: nat, s: string)
    requires Holds(b, line, s)
    ensures line + |s| < |b| && b[line + |s|] == '\0' && s[..|s|] == s && s[0..] == s
    ensures (b[line] == '\0' <==> s == "") && Without(s, '\0')
  {
    HoldsAt(b, line, s);
  }

  lemma HoldsPart(b: seq<char>, b': seq<char>, line: nat, s: string, i: nat, j: nat)
    requires Holds(b, line, s) && i <= j <= |s| && |b'| == |b|
    requires b'[line + i..line + j] == b[line + i..line + j] && b'[line + j] == '\0'
    ensures Holds(b', line + i, s[i..j])
  {
    HoldsAt(b, line, s);
    var part := b[line + i..line + j];
    assert forall t :: 0 <= t < j - i ==> part[t] == s[i..j][t];
    assert part == s[i..j];
  }

  /** Copies a field from the string at `at` in the buffer, up to the stop character, the end of the
      string or the limit. */
  method TakeUntil(buf: array<char>, at: nat, stop: char, limit: nat, ghost s: string) returns (n: nat, field: string)
    requires Holds(buf[..], at, s) && stop != '\0'
    ensures n == Min(Index(s, stop), limit) && field == s[..n]
  {
    hide Index, Holds;
    HoldsAt(buf[..], at, s);
    HoldsBounds(buf[..], at, s);
    n, field := 0, "";
    while buf[at + n] != '\0' && buf[at + n] != stop && n < limit
      invariant n <= |s| && n <= limit && field == s[..n]
      invariant forall j :: 0 <= j < n ==> s[j] != stop
      invariant n < |s| ==> buf[at + n] == s[n] && s[n] != '\0'
      invariant n == |s| ==> buf[at + n] == '\0'
      decreases |s| - n
    {
      field := field + [buf[at + n]];
      n := n + 1;
      if n < |s| { assert buf[at + n] == s[at + n - at]; }
    }
    FieldEnds(s, stop, limit, n);
  }

  lemma FieldEnds(s: string, stop: char, limit: nat, n: nat)
    requires n <= |s| && n <= limit && (n == |s| || s[n] == stop || n == limit)
    requires forall j :: 0 <= j < n ==> s[j] != stop
    ensures n == Min(Index(s, stop), limit)
  {
    if n == |s| || s[n] == stop { IndexIs(s, stop, n); }
  }

  /** parse_manifest_line on the string at `at` in the buffer. */
  method ParseManifestLine(buf: array<char>, at: nat, entry: Entry, ghost line: string)
    returns (ok: bool, parsed: Entry)
    requires Holds(buf[..], at, line)
    ensures ok <==> ParseLine(line).Some?
    ensures ok ==> parsed == ParseLine(line).value
  {
    hide Index, Holds;
    HoldsAt(buf[..], at, line);
    HoldsBounds(buf[..], at, line);
    var i, name := TakeUntil(buf, at, '\t', NAME_LEN - 1, line);
    parsed := entry.(name := name);
    if i < |line| { assert buf[at + i] == line[at + i - at]; }
    if buf[at + i] != '\t' { return false, parsed; }
    HoldsPart(buf[..], buf[..], at, line, i + 1, |line|);
    assert line[i + 1..] == line[i + 1..|line|];
    var j, path := TakeUntil(buf, at + i + 1, '\n', MAX_PATH_LEN - 1, line[i + 1..]);
    parsed := parsed.(path := path, active := true);
    ok := true;
  }

  /** A profile, kept in its manifest file. */
  class Profile {
    var manifest: Option<string>

    function FileText(): string
      reads this
    {
      if manifest.None? then "" else manifest.value
    }

    function Entries(): (es: seq<Entry>)
      reads this
    {
      Parse(FileText(), MAX_PROFILE_ENTRIES)
    }

    /** An entry for a line of its own, unless the line is empty or no entry. */
    static method TakeLine(buf: array<char>, line: nat, entries: array<Entry>, count: nat, ghost s: string)
      returns (n: nat)
      requires Holds(buf[..], line, s) && Without(s, '\n') && count < entries.Length
      modifies entries
      ensures n == count + |LineEntry(s)| && entries[..n] == old(entries[..count]) + LineEntry(s)
    {
      hide ParseLine;
      n := count;
      NoLine();
      HoldsAt(buf[..], line, s);
      if buf[line] != '\0' {
        var ok, parsed := ParseManifestLine(buf, line, entries[count], s);
        entries[count] := parsed;
        if ok {
          n := n + 1;
        }
      }
    }

    /** One pass of the loop of read_manifest: the first line of what is left. */
    static method TakeFirst(buf: array<char>, line: nat, entries: array<Entry>, count: nat, ghost left: string)
      returns (n: nat, eol: nat, found: bool)
      requires Holds(buf[..], line, left) && count < entries.Length
      modifies buf, entries
      ensures n == count + |LineEntry(FirstLine(left))|
      ensures entries[..n] == old(entries[..count]) + LineEntry(FirstLine(left))
      ensures found <==> Index(left, '\n') < |left|
      ensures found ==> eol < buf.Length && Holds(buf[..], eol + 1, left[Index(left, '\n') + 1..])
    {
      hide LineEntry, Index, Holds, Without;
      eol := EndOfLine(buf, line, left);
      HoldsSplit(buf[..], line, left);
      found := buf[eol] == '\n';
      if found { buf[eol] := '\0'; }
      n := TakeLine(buf, line, entries, count, FirstLine(left));
    }

    /** read_manifest */
    method ReadManifest(entries: array<Entry>) returns (count: nat)
      requires entries.Length == MAX_PROFILE_ENTRIES
      modifies entries
      ensures count <= MAX_PROFILE_ENTRIES && entries[..count] == Entries()
    {
      hide ParseText, ParseRest, LineEntry, FirstLine, Index, Holds, CString, Without;
      EmptyFile(MAX_PROFILE_ENTRIES);
      if manifest == None { return 0; }
      var buf := new char[BUFFER](_ => '\0');
      var n := Min(|manifest.value|, BUFFER - 1);
      forall k | 0 <= k < n { buf[k] := manifest.value[k]; }
      buf[n] := '\0';
      ghost var text := manifest.value[..n];
      assert buf[..n] == text;
      if n == 0 {
        assert text == "";
        return 0;
      }
      HoldsStart(buf[..], text);
      count := ReadLines(buf, entries, CString(text));
    }

    /** The same, counted against all the entries of the text. */
    static method TakeNext(buf: array<char>, line: nat, entries: array<Entry>, count: nat, ghost es: seq<Entry>,
                           ghost left: string)
      returns (n: nat, next: nat, ghost rest: string, found: bool)
      requires Holds(buf[..], line, left) && left != "" && count < MAX_PROFILE_ENTRIES == entries.Length
      requires Parsed(es, entries[..count], left, MAX_PROFILE_ENTRIES - count)
      modifies buf, entries
      ensures n <= MAX_PROFILE_ENTRIES && (!found ==> es == entries[..n])
      ensures found ==> |rest| < |left| && Parsed(es, entries[..n], rest, MAX_PROFILE_ENTRIES - n)
      ensures found ==> next < buf.Length && Holds(buf[..], next, rest) && (buf[next] == '\0' <==> rest == "")
    {
      hide ParseText, ParseRest, LineEntry, FirstLine, Index, Holds, Without, Parsed;
      ghost var before := entries[..count];
      var eol;
      n, eol, found := TakeFirst(buf, line, entries, count, left);
      ParseNext(es, before, entries[..n], left, MAX_PROFILE_ENTRIES - count);
      next, rest := 0, "";
      if found {
        next, rest := eol + 1, left[Index(left, '\n') + 1..];
        HoldsBounds(buf[..], next, rest);
      }
    }

    /** Its loop over the lines of the buffer. */
    static method ReadLines(buf: array<char>, entries: array<Entry>, ghost text: string) returns (count: nat)
      requires Holds(buf[..], 0, text) && entries.Length == MAX_PROFILE_ENTRIES
      modifies buf, entries
      ensures count <= MAX_PROFILE_ENTRIES && entries[..count] == ParseText(text, MAX_PROFILE_ENTRIES)
    {
      hide ParseText, Index, Holds, Without, Parsed;
      ghost var es, left := ParseText(text, MAX_PROFILE_ENTRIES), text;
      var line: nat := 0;
      count := 0;
      HoldsBounds(buf[..], 0, text);
      ParsedNone(es, entries[..0], text, MAX_PROFILE_ENTRIES);
      while buf[line] != '\0' && count < MAX_PROFILE_ENTRIES
        invariant line < buf.Length && Holds(buf[..], line, left) && (buf[line] == '\0' <==> left == "")
        invariant count <= MAX_PROFILE_ENTRIES && Parsed(es, entries[..count], left, MAX_PROFILE_ENTRIES - count)
        decreases |left|
      {
        var found;
        count, line, left, found := TakeNext(buf, line, entries, count, es, left);
        if !found { return; }
      }
      ParseEnd(es, entries[..count], left, MAX_PROFILE_ENTRIES - count);
    }

    /** write_manifest */
    method WriteManifest(entries: array<Entry>, count: nat)
      requires count <= entries.Length && forall i :: 0 <= i < count ==> FieldsFit(entries[i])
      modifies this
      ensures manifest == Some(Print(entries[..count]))
    {
      hide Print, Stdio.Render, Stdio.Terminated;
      var line := new char[MAX_PATH_LEN + NAME_LEN + 2];
      manifest := Some("");
      PrintNone();
      var i := 0;
      assert entries[..0] == [];
      while i < count
        invariant i <= count && manifest == Some(Print(entries[..i]))
        invariant fresh(line) && line.Length == MAX_PATH_LEN + NAME_LEN + 2
      {
        PrintNext(entries[..i + 1]);
        assert entries[..i + 1][..i] == entries[..i];
        if entries[i].active {
          LineFormat(entries[i]);
          Stdio.TerminatedWhole(line[..], Line(entries[i]), line.Length);
          var len := Stdio.Snprintf(line, line.Length, "%s\t%s\n",
                                    [Stdio.Text(entries[i].name), Stdio.Text(entries[i].path)]);
          assert line[..len] == line[..][..len];
          manifest := Some(manifest.value + line[..len]);
        }
        i := i + 1;
      }
    }

    /** cmd_install */
    method CmdInstall(storePath: string) returns (r: int)
      requires |storePath| < MAX_PATH_LEN && |PackageName(storePath)| < NAME_LEN
      modifies this
      ensures r == 0 || r == 1
      ensures r == 1 <==> Install(old(Entries()), PackageName(storePath), storePath).None?
      ensures r == 0 ==> manifest == Some(Print(Install(old(Entries()), PackageName(storePath), storePath).value))
      ensures r == 1 ==> manifest == old(manifest)
    {
      hide Print, Parse, PackageName, Storable;
      var entries := new Entry[MAX_PROFILE_ENTRIES](_ => NO_ENTRY);
      FileStorable(FileText());
      var count := ReadManifest(entries);
      var name := PackageName(storePath);
      ghost var es := Entries();
      FieldsOf(es);
      var i := FindEntry(entries, count, name);
      if i < count {
        entries[i] := entries[i].(path := storePath);
        assert entries[..count] == Install(es, name, storePath).value;
        WriteManifest(entries, count);
        return 0;
      }
      if count >= MAX_PROFILE_ENTRIES { return 1; }
      entries[count] := Entry(name, storePath, true);
      count := count + 1;
      assert entries[..count] == Install(es, name, storePath).value;
      WriteManifest(entries, count);
      r := 0;
    }

    /** cmd_remove */
    method CmdRemove(name: string) returns (r: int)
      modifies this
      ensures r == 0 || r == 1
      ensures r == 1 <==> Remove(old(Entries()), name).None?
      ensures r == 0 ==> manifest == Some(Print(Remove(old(Entries()), name).value))
      ensures r == 1 ==> manifest == old(manifest)
    {
      hide Print, Parse, Storable;
      var entries := new Entry[MAX_PROFILE_ENTRIES](_ => NO_ENTRY);
      FileStorable(FileText());
      var count := ReadManifest(entries);
      ghost var es := Entries();
      FieldsOf(es);
      var i := FindEntry(entries, count, name);
      if i == count { return 1; }
      entries[i] := entries[i].(active := false);
      assert entries[..count] == Remove(es, name).value;
      WriteManifest(entries, count);
      r := 0;
    }
  }

  /** The loop of both commands. */
  method FindEntry(entries: array<Entry>, count: nat, name: string) returns (i: nat)
    requires count <= entries.Length
    ensures i == Find(entries[..count], name)
  {
    hide Find;
    i := 0;
    while i < count && !(entries[i].active && entries[i].name == name)
      invariant i <= count
      invariant forall j :: 0 <= j < i ==> !(entries[j].active && entries[j].name == name)
    {
      i := i + 1;
    }
    FindIs(entries[..count], name, i);
  }

  lemma FieldsOf(es: seq<Entry>)
    requires forall e :: e in es ==> Storable(e) && e.active
    ensures forall i :: 0 <= i < |es| ==> FieldsFit(es[i])
  {
  }

  lemma HoldsStart(b: seq<char>, t: string)
    requires |t| < |b| && b[..|t|] == t && b[|t|] == '\0'
    ensures Holds(b, 0, CString(t))
  {
    var k := Index(t, '\0');
    assert forall j :: 0 <= j < |t| ==> b[..|t|][j] == b[j];
    assert b[0..k] == t[..k];
  }

  /** Cutting the string at its first newline leaves two. */
  lemma HoldsSplit(b: seq<char>, line: nat, s: string)
    requires Holds(b, line, s)
    ensures Without(s[..Index(s, '\n')], '\n')
    ensures var k := Index(s, '\n');
      if k < |s| then Holds(b[line + k := '\0'], line, s[..k]) && Holds(b[line + k := '\0'], line + k + 1, s[k + 1..])
      else s[..k] == s
  {
    hide Index, Holds;
    var k := Index(s, '\n');
    assert forall j :: 0 <= j < k ==> s[..k][j] == s[j];
    HoldsBounds(b, line, s);
    if k < |s| {
      var b' := b[line + k := '\0'];
      HoldsPart(b, b', line, s, 0, k);
      HoldsPart(b, b', line, s, k + 1, |s|);
    }
  }

  /** The end of the line that starts a buffer: strchr for a newline. */
  method EndOfLine(buf: array<char>, line: nat, ghost s: string) returns (eol: nat)
    requires Holds(buf[..], line, s)
    ensures eol == line + Index(s, '\n') && eol < buf.Length
    ensures buf[eol] == '\n' <==> Index(s, '\n') < |s|
  {
    hide Index, Holds;
    HoldsAt(buf[..], line, s);
    HoldsBounds(buf[..], line, s);
    eol := line;
    ghost var j: nat := 0;
    while buf[eol] != '\0' && buf[eol] != '\n'
      invariant j <= |s| && eol == line + j
      invariant forall i :: 0 <= i < j ==> s[i] != '\n'
      invariant j < |s| ==> buf[eol] == s[j] && s[j] != '\0'
      invariant j == |s| ==> buf[eol] == '\0'
      decreases |s| - j
    {
      eol, j := eol + 1, j + 1;
      if j < |s| { assert buf[eol] == s[eol - line]; }
    }
    IndexIs(s, '\n', j);
  }

  /** es are the entries read so far and those still to be read. */
  ghost predicate Parsed(es: seq<Entry>, before: seq<Entry>, text: string, m: nat) {
    es == before + ParseText(text, m)
  }

  lemma ParseNext(es: seq<Entry>, before: seq<Entry>, after: seq<Entry>, text: string, m: nat)
    requires text != "" && m > 0 && Parsed(es, before, text, m)
    requires after == before + LineEntry(FirstLine(text))
    ensures var k := Index(text, '\n');
      if k < |text| then Parsed(es, after, text[k + 1..], m - |LineEntry(FirstLine(text))|) else es == after
  {
    hide LineEntry, FirstLine, ParseRest, ParseText, Index;
    var h := LineEntry(FirstLine(text));
    var t := ParseRest(text, m - |h|);
    ParseStep(text, m);
    RestIs(text, m - |h|);
    assert before + (h + t) == (before + h) + t;
  }

  lemma ParsedNone(es: seq<Entry>, before: seq<Entry>, text: string, m: nat)
    requires before == [] && es == ParseText(text, m)
    ensures Parsed(es, before, text, m)
  {
  }

  lemma RestIs(text: string, max: nat)
    ensures var k := Index(text, '\n'); ParseRest(text, max) == if k < |text| then ParseText(text[k + 1..], max) else []
  {
    hide ParseText, Index;
  }

  lemma ParseEnd(es: seq<Entry>, before: seq<Entry>, text: string, m: nat)
    requires (text == "" || m == 0) && Parsed(es, before, text, m)
    ensures es == before
  {
  }

  lemma EmptyFile(max: nat)
    ensures Parse("", max) == []
  {
  }

  lemma PrintNone()
    ensures Print([]) == ""
  {
  }

  lemma PrintNext(es: seq<Entry>)
    requires es != []
    ensures Print(es) ==
              if es[|es| - 1].active then Print(es[..|es| - 1]) + Line(es[|es| - 1]) else Print(es[..|es| - 1])
  {
  }
}
