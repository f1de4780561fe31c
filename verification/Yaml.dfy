/** The line-based reader of achievement definitions: a small part of YAML, with top-level scalars and
    one level of sections. */
module Yaml {
  import opened Basics
  import opened Text

  type YamlMap = map<string, string>

  // ---------------------------------------------------------------- the reader

  predicate IsBlank(c: char) {
    c == ' ' || c == '\t' || c == '\r' || c == '\n'
  }

  function Trim(s: string): (r: string)
    ensures |r| <= |s|
    ensures r != "" ==> !IsBlank(r[0]) && !IsBlank(r[|r| - 1])
    decreases |s|
  {
    if s == "" then ""
    else if IsBlank(s[0]) then Trim(s[1..])
    else if IsBlank(s[|s| - 1]) then Trim(s[..|s| - 1])
    else s
  }

  predicate HasQuotes(v: string) {
    |v| >= 2 && v[0] == v[|v| - 1] && (v[0] == '\"' || v[0] == '\'')
  }

  function Unquote(v: string): string {
    if HasQuotes(v) then v[1..|v| - 1] else v
  }

  /** `getline` until the end of the text: a last line without a newline counts when it is not empty. */
  function Lines(text: string): (lines: seq<string>)
    ensures forall l :: l in lines ==> '\n' !in l
    decreases |text|
  {
    var n := Find(text, "\n", 0);
    if n < 0 then
      NoCharBefore(text, '\n', |text|);
      assert text[..|text|] == text;
      if text == "" then [] else [text]
    else
      NoCharBefore(text, '\n', n);
      [text[..n]] + Lines(text[n + 1..])
  }

  /** The text up to its first `#`, when that begins the text or follows a space. */
  function Uncomment(line: string): string {
    var hash := Find(line, "#", 0);
    if hash >= 0 && (hash == 0 || line[hash - 1] == ' ') then line[..hash] else line
  }

  datatype Reader = Reader(section: string, out: YamlMap)

  /** What one key and value do: a nested one needs a section, and an unnested one without a value
      begins a section. */
  function Assign(st: Reader, nested: bool, key: string, value: string): Reader {
    if nested then
      if st.section == "" then st else st.(out := st.out[st.section + "." + key := Unquote(value)])
    else if value == "" then st.(section := key)
    else Reader("", st.out[key := Unquote(value)])
  }

  predicate Indented(line: string) {
    line != "" && (line[0] == ' ' || line[0] == '\t')
  }

  function Feed(st: Reader, line: string): Reader {
    var kept := Uncomment(line);
    var content := Trim(kept);
    var colon := Find(content, ":", 0);
    if content == "" || colon < 0 then st
    else Assign(st, Indented(kept), Trim(content[..colon]), Trim(content[colon + 1..]))
  }

  function FeedAll(st: Reader, lines: seq<string>): Reader
    decreases |lines|
  {
    if lines == [] then st else FeedAll(Feed(st, lines[0]), lines[1..])
  }

  function ParseText(text: string): YamlMap {
    FeedAll(Reader("", map[]), Lines(text)).out
  }

  /** The body of the loop, as written: comment, nesting, key and value of one line. */
  method ReadLine(section0: string, out0: YamlMap, line0: string) returns (section: string, out: YamlMap)
    ensures Reader(section, out) == Feed(Reader(section0, out0), line0)
  {
    section, out := section0, out0;
    var line := line0;
    var hash := Find(line, "#", 0);
    if hash >= 0 && (hash == 0 || line[hash - 1] == ' ') { line := line[..hash]; }
    var nested := Indented(line);
    var content := Trim(line);
    if content == "" { return; }
    var colon := Find(content, ":", 0);
    if colon < 0 { return; }
    var key, value := Trim(content[..colon]), Trim(content[colon + 1..]);
    section, out := Store(section, out, nested, key, value);
  }

  method Store(section0: string, out0: YamlMap, nested: bool, key: string, value: string)
    returns (section: string, out: YamlMap)
    ensures Reader(section, out) == Assign(Reader(section0, out0), nested, key, value)
  {
    section, out := section0, out0;
    if nested {
      if section != "" { out := out[section + "." + key := Unquote(value)]; }
    } else if value == "" {
      section := key;
    } else {
      section, out := "", out[key := Unquote(value)];
    }
  }

  /** The loop over the lines of the file. */
  method ParseAchievementYaml(text: string) returns (out: YamlMap)
    ensures out == ParseText(text)
  {
    var section, rest := "", text;
    out := map[];
    while rest != ""
      invariant FeedAll(Reader(section, out), Lines(rest)).out == ParseText(text)
      decreases |rest|
    {
      ghost var lines := Lines(rest);
      var n := Find(rest, "\n", 0);
      var line := if n < 0 then rest else rest[..n];
      rest := if n < 0 then "" else rest[n + 1..];
      assert lines[0] == line && lines[1..] == Lines(rest);
      section, out := ReadLine(section, out, line);
    }
  }

  // ---------------------------------------------------------------- the printer

  datatype Style = Plain | Quoted(mark: char)
  datatype Scalar = Scalar(style: Style, value: string)
  datatype Field = Field(key: string, scalar: Scalar)
  datatype Entry = Top(field: Field) | Section(name: string, fields: seq<Field>)

  function Render(s: Scalar): string {
    match s.style
    case Plain => s.value
    case Quoted(mark) => [mark] + s.value + [mark]
  }

  function FieldLine(f: Field): string {
    f.key + ": " + Render(f.scalar)
  }

  function FieldLines(fields: seq<Field>): (lines: seq<string>)
    ensures |lines| == |fields|
  {
    if fields == [] then [] else ["  " + FieldLine(fields[0])] + FieldLines(fields[1..])
  }

  function EntryLines(e: Entry): seq<string> {
    match e
    case Top(f) => [FieldLine(f)]
    case Section(name, fields) => [name + ":"] + FieldLines(fields)
  }

  function DocLines(doc: seq<Entry>): seq<string> {
    if doc == [] then [] else EntryLines(doc[0]) + DocLines(doc[1..])
  }

  function Joined(lines: seq<string>): string {
    if lines == [] then "" else lines[0] + "\n" + Joined(lines[1..])
  }

  function Print(doc: seq<Entry>): string {
    Joined(DocLines(doc))
  }

  // ---------------------------------------------------------------- what a document says

  datatype Binding = Binding(name: string, scalar: Scalar)

  function FieldBindings(section: string, fields: seq<Field>): (bs: seq<Binding>)
    ensures |bs| == |fields|
  {
    if fields == [] then []
    else [Binding(section + "." + fields[0].key, fields[0].scalar)] + FieldBindings(section, fields[1..])
  }

  function EntryBindings(e: Entry): seq<Binding> {
    match e
    case Top(f) => [Binding(f.key, f.scalar)]
    case Section(name, fields) => FieldBindings(name, fields)
  }

  function Bindings(doc: seq<Entry>): seq<Binding> {
    if doc == [] then [] else EntryBindings(doc[0]) + Bindings(doc[1..])
  }

  /** The flat map of a document: a later binding of a name replaces an earlier one. */
  function Meaning(m: YamlMap, bs: seq<Binding>): YamlMap
    decreases |bs|
  {
    if bs == [] then m else Meaning(m[bs[0].name := bs[0].scalar.value], bs[1..])
  }

  ghost predicate KeyLike(key: string) {
    key != "" && forall c :: c in key ==> !IsBlank(c) && c != ':' && c != '#'
  }

  /** A scalar that makes a line with a value: a plain one must not begin with white space or a `#`. */
  ghost predicate Writable(s: Scalar) {
    match s.style
    case Plain => s.value != "" && !IsBlank(s.value[0]) && s.value[0] != '#'
    case Quoted(mark) => mark == '\"' || mark == '\''
  }

  ghost predicate WritableField(f: Field) {
    KeyLike(f.key) && Writable(f.scalar)
  }

  ghost predicate WritableEntry(e: Entry) {
    match e
    case Top(f) => WritableField(f)
    case Section(name, fields) => KeyLike(name) && forall f :: f in fields ==> WritableField(f)
  }

  ghost predicate WritableDoc(doc: seq<Entry>) {
    forall e :: e in doc ==> WritableEntry(e)
  }

  /** The first `#` of `v`, if any, does not follow a space. */
  predicate HashIsPlain(v: string) {
    var hash := Find(v, "#", 0);
    hash <= 0 || v[hash - 1] != ' '
  }

  /** The reader gives the scalar's value back. */
  ghost predicate Readable(s: Scalar)
    requires Writable(s)
  {
    && '\n' !in s.value && HashIsPlain(s.value)
    && (s.style.Plain? ==> !IsBlank(s.value[|s.value| - 1]) && !HasQuotes(s.value))
  }

  // ---------------------------------------------------------------- one line

  ghost predicate AllBlank(s: string) {
    forall c :: c in s ==> IsBlank(c)
  }

  lemma {:induction false} TrimLeft(a: string, s: string)
    requires AllBlank(a)
    ensures Trim(a + s) == Trim(s)
  {
    if a == "" {
      assert a + s == s;
    } else {
      assert (a + s)[1..] == a[1..] + s;
      TrimLeft(a[1..], s);
    }
  }

  lemma {:induction false} TrimRight(s: string, b: string)
    requires s != "" && !IsBlank(s[0]) && AllBlank(b)
    ensures Trim(s + b) == Trim(s)
  {
    if b == "" {
      assert s + b == s;
    } else {
      var n := |b| - 1;
      assert (s + b)[..|s + b| - 1] == s + b[..n];
      assert IsBlank(b[n]);
      TrimRight(s, b[..n]);
    }
  }

  lemma {:induction false} TrimDrops(q: string)
    requires q != "" && !IsBlank(q[0])
    ensures var t := Trim(q); t != "" && t <= q && AllBlank(q[|t|..])
  {
    if IsBlank(q[|q| - 1]) {
      var r := q[..|q| - 1];
      TrimDrops(r);
      assert q[|Trim(r)|..] == r[|Trim(r)|..] + [q[|q| - 1]];
    } else {
      assert q[|q|..] == "";
    }
  }

  /** What the comment rule keeps of a scalar's text. */
  function Kept(raw: string): string {
    var hash := Find(raw, "#", 0);
    if hash > 0 && raw[hash - 1] == ' ' then raw[..hash] else raw
  }

  /** What the reader makes of a scalar's text. */
  function Denotes(s: Scalar): string {
    Unquote(Trim(Kept(Render(s))))
  }

  lemma {:induction false} UncommentKeeps(pre: string, raw: string)
    requires '#' !in pre && raw != "" && raw[0] != '#'
    ensures Uncomment(pre + raw) == pre + Kept(raw)
  {
    FindPast(pre, '#', raw);
    var hash := Find(raw, "#", 0);
    if hash >= 0 {
      assert raw[hash] == raw[hash..hash + 1][0] == '#';
      assert (pre + raw)[|pre| + hash - 1] == raw[hash - 1];
      assert (pre + raw)[..|pre| + hash] == pre + raw[..hash];
    }
  }

  lemma {:induction false} TrimLine(indent: string, key: string, q: string)
    requires AllBlank(indent) && KeyLike(key) && q != "" && !IsBlank(q[0])
    ensures Trim(indent + (key + ": " + q)) == key + ": " + Trim(q)
  {
    var t := Trim(q);
    TrimDrops(q);
    var line := key + ": " + t;
    TrimLeft(indent, key + ": " + q);
    assert q == t + q[|t|..];
    assert key + ": " + q == line + q[|t|..];
    assert line[0] == key[0] && key[0] in key;
    assert line[|line| - 1] == t[|t| - 1];
    TrimRight(line, q[|t|..]);
  }

  lemma {:induction false} FirstColon(key: string, t: string)
    requires KeyLike(key)
    ensures Find(key + ": " + t, ":", 0) == |key|
  {
    Associates(key, ": ", t);
    FindPast(key, ':', ": " + t);
    assert (": " + t)[0..1] == ":";
    FindIs(": " + t, ":", 0, 0);
  }

  lemma {:induction false} AroundColon(key: string, t: string)
    ensures (key + ": " + t)[..|key|] == key && (key + ": " + t)[|key| + 1..] == " " + t
  {
    Associates(key, ":", " " + t);
    PrefixOf(key + ":", " " + t);
    assert key + ": " + t == key + ":" + (" " + t);
  }

  /** The first colon of a trimmed line separates the key from the value. */
  lemma {:induction false} SplitLine(key: string, t: string)
    requires KeyLike(key) && t != "" && Trim(t) == t
    ensures var content := key + ": " + t;
            && Find(content, ":", 0) == |key|
            && Trim(content[..|key|]) == key && Trim(content[|key| + 1..]) == t
  {
    FirstColon(key, t);
    AroundColon(key, t);
    assert key[0] in key && key[|key| - 1] in key;
    TrimLeft(" ", t);
  }

  lemma {:induction false} TrimTwice(s: string)
    ensures Trim(Trim(s)) == Trim(s)
  {
    var t := Trim(s);
    if t != "" { assert !IsBlank(t[0]) && !IsBlank(t[|t| - 1]); }
  }

  /** Spaces and tabs. */
  ghost predicate IsIndent(indent: string) {
    forall c :: c in indent ==> c == ' ' || c == '\t'
  }

  lemma {:induction false} FeedKept(st: Reader, line: string, indent: string, key: string, q: string)
    requires Uncomment(line) == indent + (key + ": " + q)
    requires IsIndent(indent) && KeyLike(key) && q != "" && !IsBlank(q[0])
    ensures Feed(st, line)
            == if indent == "" then Reader("", st.out[key := Unquote(Trim(q))])
               else if st.section == "" then st
               else st.(out := st.out[st.section + "." + key := Unquote(Trim(q))])
  {
    TrimLine(indent, key, q);
    TrimDrops(q);
    TrimTwice(q);
    SplitLine(key, Trim(q));
    var kept := Uncomment(line);
    assert kept[0] == if indent == "" then key[0] else indent[0];
    assert key[0] in key && (indent != "" ==> indent[0] in indent);
  }

  lemma {:induction false} KeptBegins(s: Scalar)
    requires Writable(s)
    ensures var raw := Render(s);
            raw != "" && raw[0] != '#' && Kept(raw) != "" && !IsBlank(Kept(raw)[0])
  {
  }

  /** A printed scalar line. */
  lemma {:induction false} FeedField(st: Reader, indent: string, f: Field)
    requires WritableField(f) && IsIndent(indent)
    ensures Feed(st, indent + FieldLine(f))
            == if indent == "" then Reader("", st.out[f.key := Denotes(f.scalar)])
               else if st.section == "" then st
               else st.(out := st.out[st.section + "." + f.key := Denotes(f.scalar)])
  {
    var raw := Render(f.scalar);
    KeptBegins(f.scalar);
    var pre := indent + (f.key + ": ");
    UncommentKeeps(pre, raw);
    Associates(indent, f.key + ": ", raw);
    Associates(indent, f.key + ": ", Kept(raw));
    FeedKept(st, indent + FieldLine(f), indent, f.key, Kept(raw));
  }

  /** A comment, alone on its line: at its start or after spaces. */
  lemma {:induction false} FeedComment(st: Reader, indent: string, text: string)
    requires forall c :: c in indent ==> c == ' '
    ensures Feed(st, indent + ("#" + text)) == st
  {
    var line := indent + ("#" + text);
    FindPast(indent, '#', "#" + text);
    assert ("#" + text)[0..1] == "#";
    FindIs("#" + text, "#", 0, 0);
    assert line[..|indent|] == indent;
    assert indent != "" ==> line[|indent| - 1] == indent[|indent| - 1] && indent[|indent| - 1] in indent;
    TrimAway(indent);
  }

  lemma {:induction false} TrimAway(s: string)
    requires AllBlank(s)
    ensures Trim(s) == ""
  {
    if s != "" {
      assert s[0] in s;
      TrimAway(s[1..]);
    }
  }

  /** A line without a colon, or of white space alone, changes nothing. */
  lemma {:induction false} FeedOther(st: Reader, line: string)
    requires ':' !in line || AllBlank(line)
    ensures Feed(st, line) == st
  {
    var kept := Uncomment(line);
    assert kept <= line;
    if AllBlank(line) {
      TrimAway(kept);
    } else {
      TrimIsPart(kept);
      FoundIn(Trim(kept), ':');
    }
  }

  lemma {:induction false} FoundIn(s: string, c: char)
    ensures Find(s, [c], 0) >= 0 ==> c in s
  {
    var k := Find(s, [c], 0);
    if k >= 0 { assert s[k..k + 1][0] == s[k]; }
  }

  lemma {:induction false} TrimIsPart(s: string)
    ensures forall c :: c in Trim(s) ==> c in s
    decreases |s|
  {
    if s != "" {
      TrimIsPart(s[1..]);
      TrimIsPart(s[..|s| - 1]);
    }
  }

  lemma {:induction false} TrimEnd(s: string, b: string)
    requires AllBlank(b)
    ensures Trim(s + b) == Trim(s)
  {
    if s == "" {
      assert s + b == b;
      TrimAway(b);
    } else if IsBlank(s[0]) {
      assert (s + b)[1..] == s[1..] + b;
      TrimEnd(s[1..], b);
    } else {
      TrimRight(s, b);
    }
  }

  /** A line that ends in a carriage return is read as if it did not, unless it has a comment sign. */
  lemma {:induction false} FeedCarriageReturn(st: Reader, line: string)
    requires '#' !in line
    ensures Feed(st, line + "\r") == Feed(st, line)
  {
    FindPast(line + "\r", '#', "");
    FindPast(line, '#', "");
    assert line + "\r" + "" == line + "\r" && line + "" == line;
    TrimEnd(line, "\r");
    if line == "" { assert line + "\r" == "\r"; }
  }

  /** A printed section line. */
  lemma {:induction false} FeedHeader(st: Reader, name: string)
    requires KeyLike(name)
    ensures Feed(st, name + ":") == st.(section := name)
  {
    var line := name + ":";
    FindPast(line, '#', "");
    assert line + "" == line;
    assert name[0] in name && name[|name| - 1] in name;
    FindPast(name, ':', ":");
    FindIs(":", ":", 0, 0);
    PrefixOf(name, ":");
    assert line[|name| + 1..] == "";
  }

  // ---------------------------------------------------------------- one scalar

  lemma {:induction false} HashAt(v: string)
    ensures var hash := Find(v, "#", 0); hash >= 0 ==> hash < |v| && v[hash] == '#'
  {
    var hash := Find(v, "#", 0);
    if hash >= 0 { assert v[hash..hash + 1][0] == v[hash]; }
  }

  lemma {:induction false} TrimShrinks(s: string)
    requires s != "" && (IsBlank(s[0]) || IsBlank(s[|s| - 1]))
    ensures |Trim(s)| < |s|
  {
  }

  lemma {:induction false} KeptQuoted(v: string, mark: char)
    requires mark == '\"' || mark == '\''
    ensures var raw := [mark] + v + [mark];
            Kept(raw) == if HashIsPlain(v) then raw else [mark] + v[..Find(v, "#", 0)]
  {
    var raw, rest := [mark] + v + [mark], v + [mark];
    assert raw == [mark] + rest;
    FindPast([mark], '#', rest);
    HashAt(v);
    var hash := Find(v, "#", 0);
    if hash < 0 {
      NoCharBefore(v, '#', |v|);
      assert v[..|v|] == v;
      FindPast(v, '#', [mark]);
    } else {
      FindIsInPrefix(v, [mark], hash);
      assert raw[hash] == ([mark] + v)[hash];
      assert raw[..1 + hash] == [mark] + v[..hash];
    }
  }

  lemma {:induction false} FindIsInPrefix(v: string, b: string, hash: nat)
    requires hash == Find(v, "#", 0)
    ensures Find(v + b, "#", 0) == hash
  {
    HashAt(v);
    assert (v + b)[hash..hash + 1] == "#";
    NoCharBefore(v, '#', hash);
    forall i | 0 <= i < hash ensures !OccursAt(v + b, "#", i) {
      assert (v + b)[i] == v[..hash][i];
      OccursHead(v + b, "#", i);
    }
    FindIs(v + b, "#", 0, hash);
  }

  lemma {:induction false} QuotedReadsBack(v: string, mark: char)
    requires mark == '\"' || mark == '\''
    ensures Unquote(Trim([mark] + v + [mark])) == v
  {
    var raw := [mark] + v + [mark];
    assert Trim(raw) == raw;
    assert raw[1..|raw| - 1] == v;
  }

  lemma {:induction false} CutShrinks(v: string, mark: char, hash: nat)
    requires 0 < hash < |v| && v[hash - 1] == ' '
    ensures |Unquote(Trim([mark] + v[..hash]))| < |v|
  {
    var cut := [mark] + v[..hash];
    assert cut[|cut| - 1] == ' ';
    TrimShrinks(cut);
  }

  lemma {:induction false} QuotedIff(v: string, mark: char)
    requires mark == '\"' || mark == '\''
    ensures Denotes(Scalar(Quoted(mark), v)) == v <==> HashIsPlain(v)
  {
    KeptQuoted(v, mark);
    HashAt(v);
    if HashIsPlain(v) {
      QuotedReadsBack(v, mark);
    } else {
      CutShrinks(v, mark, Find(v, "#", 0));
    }
  }

  lemma {:induction false} PlainIff(v: string)
    requires v != "" && !IsBlank(v[0]) && v[0] != '#'
    ensures Denotes(Scalar(Plain, v)) == v <==> HashIsPlain(v) && !IsBlank(v[|v| - 1]) && !HasQuotes(v)
  {
    HashAt(v);
    if HashIsPlain(v) {
      if IsBlank(v[|v| - 1]) { TrimShrinks(v); }
    } else {
      TrimShrinks(v[..Find(v, "#", 0)]);
    }
  }

  /** The reader gives a scalar without newlines back exactly when it is readable. */
  lemma {:induction false} DenotesIff(s: Scalar)
    requires Writable(s) && '\n' !in s.value
    ensures Denotes(s) == s.value <==> Readable(s)
  {
    match s.style
    case Quoted(mark) => QuotedIff(s.value, mark);
    case Plain => PlainIff(s.value);
  }

  // ---------------------------------------------------------------- whole documents

  /** What the reader makes of a list of bindings, each on its own line. */
  function AsRead(m: YamlMap, bs: seq<Binding>): YamlMap
    decreases |bs|
  {
    if bs == [] then m else AsRead(m[bs[0].name := Denotes(bs[0].scalar)], bs[1..])
  }

  lemma {:induction false} AsReadConcat(m: YamlMap, a: seq<Binding>, b: seq<Binding>)
    ensures AsRead(m, a + b) == AsRead(AsRead(m, a), b)
    decreases |a|
  {
    if a == [] {
      assert a + b == b;
    } else {
      assert (a + b)[1..] == a[1..] + b;
      AsReadConcat(m[a[0].name := Denotes(a[0].scalar)], a[1..], b);
    }
  }

  lemma {:induction false} FeedConcat(st: Reader, a: seq<string>, b: seq<string>)
    ensures FeedAll(st, a + b) == FeedAll(FeedAll(st, a), b)
    decreases |a|
  {
    if a == [] {
      assert a + b == b;
    } else {
      assert (a + b)[1..] == a[1..] + b;
      FeedConcat(Feed(st, a[0]), a[1..], b);
    }
  }

  lemma {:induction false} FeedFields(st: Reader, fields: seq<Field>)
    requires st.section != "" && forall f :: f in fields ==> WritableField(f)
    ensures FeedAll(st, FieldLines(fields)) == st.(out := AsRead(st.out, FieldBindings(st.section, fields)))
    decreases |fields|
  {
    if fields != [] {
      var f := fields[0];
      FeedField(st, "  ", f);
      FeedFields(st.(out := st.out[st.section + "." + f.key := Denotes(f.scalar)]), fields[1..]);
    }
  }

  lemma {:induction false} FeedEntry(st: Reader, e: Entry)
    requires WritableEntry(e)
    ensures FeedAll(st, EntryLines(e)).out == AsRead(st.out, EntryBindings(e))
  {
    match e
    case Top(f) =>
      FeedField(st, "", f);
      assert "" + FieldLine(f) == FieldLine(f);
      FeedOne(st, FieldLine(f));
      assert [Binding(f.key, f.scalar)][1..] == [];
    case Section(name, fields) =>
      FeedHeader(st, name);
      FeedConcat(st, [name + ":"], FieldLines(fields));
      FeedOne(st, name + ":");
      FeedFields(st.(section := name), fields);
  }

  lemma FeedOne(st: Reader, line: string)
    ensures FeedAll(st, [line]) == Feed(st, line)
  {
    assert [line][1..] == [];
  }

  /** The reader's state after the lines of a document, from any state: its sections do not leak. */
  lemma {:induction false} FeedDoc(st: Reader, doc: seq<Entry>)
    requires WritableDoc(doc)
    ensures FeedAll(st, DocLines(doc)).out == AsRead(st.out, Bindings(doc))
    decreases |doc|
  {
    if doc != [] {
      var e, rest := doc[0], doc[1..];
      var mid := FeedAll(st, EntryLines(e));
      FeedConcat(st, EntryLines(e), DocLines(rest));
      FeedEntry(st, e);
      FeedDoc(mid, rest);
      AsReadConcat(st.out, EntryBindings(e), Bindings(rest));
    }
  }

  // ---------------------------------------------------------------- lines of a printed document

  lemma {:induction false} LineFirst(l: string, rest: string)
    requires '\n' !in l
    ensures Lines(l + ("\n" + rest)) == [l] + Lines(rest)
  {
    var text := l + ("\n" + rest);
    FindPast(l, '\n', "\n" + rest);
    assert ("\n" + rest)[0..1] == "\n";
    FindIs("\n" + rest, "\n", 0, 0);
    assert text[..|l|] == l && text[|l| + 1..] == rest;
  }

  /** A last line counts without its newline too, unless it is empty. */
  lemma {:induction false} LastLineCounts(lines: seq<string>, last: string)
    requires (forall l :: l in lines ==> '\n' !in l) && '\n' !in last
    ensures Lines(Joined(lines) + last) == lines + if last == "" then [] else [last]
  {
    if lines == [] {
      assert "" + last == last;
      FindPast(last, '\n', "");
      assert last + "" == last;
    } else {
      var l, rest := lines[0], Joined(lines[1..]);
      LastLineCounts(lines[1..], last);
      LineFirst(l, rest + last);
      Associates(l + "\n", rest, last);
      Associates(l, "\n", rest + last);
      Associates([l], lines[1..], if last == "" then [] else [last]);
      assert [l] + lines[1..] == lines;
    }
  }

  lemma {:induction false} LinesOfJoined(lines: seq<string>)
    requires forall l :: l in lines ==> '\n' !in l
    ensures Lines(Joined(lines)) == lines
  {
    LastLineCounts(lines, "");
    assert Joined(lines) + "" == Joined(lines) && lines + [] == lines;
  }

  ghost predicate OneLine(b: Binding) {
    '\n' !in b.scalar.value
  }

  lemma {:induction false} FieldLinesPlain(section: string, fields: seq<Field>)
    requires forall f :: f in fields ==> WritableField(f)
    requires forall b :: b in FieldBindings(section, fields) ==> OneLine(b)
    ensures forall l :: l in FieldLines(fields) ==> '\n' !in l
  {
    if fields != [] {
      var b := FieldBindings(section, fields);
      assert b[0] in b && forall c :: c in b[1..] ==> c in b;
      FieldLinePlain(fields[0]);
      FieldLinesPlain(section, fields[1..]);
    }
  }

  lemma FieldLinePlain(f: Field)
    requires WritableField(f) && '\n' !in f.scalar.value
    ensures '\n' !in FieldLine(f) && '\n' !in "  " + FieldLine(f)
  {
    assert '\n' !in f.key;
    assert '\n' !in Render(f.scalar);
  }

  lemma {:induction false} DocLinesPlain(doc: seq<Entry>)
    requires WritableDoc(doc) && forall b :: b in Bindings(doc) ==> OneLine(b)
    ensures forall l :: l in DocLines(doc) ==> '\n' !in l
  {
    if doc != [] {
      var e := doc[0];
      assert e in doc && WritableEntry(e);
      assert forall b :: b in EntryBindings(e) ==> b in Bindings(doc);
      assert forall b :: b in Bindings(doc[1..]) ==> b in Bindings(doc);
      match e {
        case Top(f) =>
          assert Binding(f.key, f.scalar) in EntryBindings(e);
          FieldLinePlain(f);
        case Section(name, fields) =>
          assert '\n' !in name && '\n' !in name + ":";
          FieldLinesPlain(name, fields);
      }
      DocLinesPlain(doc[1..]);
    }
  }

  /** A document whose values have no newlines is read binding by binding. */
  lemma {:induction false} DocIsRead(doc: seq<Entry>)
    requires WritableDoc(doc) && forall b :: b in Bindings(doc) ==> OneLine(b)
    ensures ParseText(Print(doc)) == AsRead(map[], Bindings(doc))
  {
    DocLinesPlain(doc);
    LinesOfJoined(DocLines(doc));
    FeedDoc(Reader("", map[]), doc);
  }

  // ---------------------------------------------------------------- the round trip

  ghost predicate Distinct(bs: seq<Binding>) {
    forall i, j :: 0 <= i < j < |bs| ==> bs[i].name != bs[j].name
  }

  lemma {:induction false} Bound(m: YamlMap, bs: seq<Binding>, i: nat)
    requires Distinct(bs) && i < |bs|
    ensures bs[i].name in Meaning(m, bs) && Meaning(m, bs)[bs[i].name] == bs[i].scalar.value
    ensures bs[i].name in AsRead(m, bs) && AsRead(m, bs)[bs[i].name] == Denotes(bs[i].scalar)
    decreases |bs|
  {
    var b := bs[0];
    if i > 0 {
      Bound(m[b.name := b.scalar.value], bs[1..], i - 1);
      Bound(m[b.name := Denotes(b.scalar)], bs[1..], i - 1);
    } else {
      Untouched(m[b.name := b.scalar.value], bs[1..], b.name);
      Untouched(m[b.name := Denotes(b.scalar)], bs[1..], b.name);
    }
  }

  lemma {:induction false} Untouched(m: YamlMap, bs: seq<Binding>, name: string)
    requires name in m && forall i :: 0 <= i < |bs| ==> bs[i].name != name
    ensures name in Meaning(m, bs) && Meaning(m, bs)[name] == m[name]
    ensures name in AsRead(m, bs) && AsRead(m, bs)[name] == m[name]
    decreases |bs|
  {
    if bs != [] {
      Untouched(m[bs[0].name := bs[0].scalar.value], bs[1..], name);
      Untouched(m[bs[0].name := Denotes(bs[0].scalar)], bs[1..], name);
    }
  }

  lemma {:induction false} SameWhenRead(m: YamlMap, bs: seq<Binding>)
    requires forall b :: b in bs ==> Denotes(b.scalar) == b.scalar.value
    ensures AsRead(m, bs) == Meaning(m, bs)
    decreases |bs|
  {
    if bs != [] {
      assert bs[0] in bs;
      SameWhenRead(m[bs[0].name := bs[0].scalar.value], bs[1..]);
    }
  }

  lemma {:induction false} TrimWithin(s: string, c: char)
    requires c !in s
    ensures c !in Trim(s) && c !in Unquote(Trim(s))
    decreases |s|
  {
    if s != "" {
      if IsBlank(s[0]) { TrimWithin(s[1..], c); }
      else if IsBlank(s[|s| - 1]) { TrimWithin(s[..|s| - 1], c); }
    }
  }

  ghost predicate NoNewlines(m: YamlMap) {
    forall k :: k in m ==> '\n' !in m[k]
  }

  lemma {:induction false} FeedNoNewlines(st: Reader, line: string)
    requires NoNewlines(st.out) && '\n' !in line
    ensures NoNewlines(Feed(st, line).out)
  {
    var kept := Uncomment(line);
    var content := Trim(kept);
    TrimWithin(kept, '\n');
    var colon := Find(content, ":", 0);
    if content != "" && colon >= 0 {
      TrimWithin(content[colon + 1..], '\n');
      AssignNoNewlines(st, Indented(kept), Trim(content[..colon]), Trim(content[colon + 1..]));
    }
  }

  lemma AssignNoNewlines(st: Reader, nested: bool, key: string, value: string)
    requires NoNewlines(st.out) && '\n' !in Unquote(value)
    ensures NoNewlines(Assign(st, nested, key, value).out)
  {
  }

  /** No value that the reader produces, from any text, has a newline. */
  lemma {:induction false} ReadNoNewlines(st: Reader, lines: seq<string>)
    requires NoNewlines(st.out) && forall l :: l in lines ==> '\n' !in l
    ensures NoNewlines(FeedAll(st, lines).out)
    decreases |lines|
  {
    if lines != [] {
      assert lines[0] in lines;
      FeedNoNewlines(st, lines[0]);
      ReadNoNewlines(Feed(st, lines[0]), lines[1..]);
    }
  }

  ghost predicate AllReadable(bs: seq<Binding>) {
    forall b :: b in bs ==> Writable(b.scalar) && Readable(b.scalar)
  }

  lemma {:induction false} BindingsWritable(doc: seq<Entry>)
    requires WritableDoc(doc)
    ensures forall b :: b in Bindings(doc) ==> Writable(b.scalar)
  {
    if doc != [] {
      assert doc[0] in doc && WritableEntry(doc[0]);
      if doc[0].Section? { FieldsWritable(doc[0].name, doc[0].fields); }
      BindingsWritable(doc[1..]);
    }
  }

  lemma {:induction false} FieldsWritable(section: string, fields: seq<Field>)
    requires forall f :: f in fields ==> WritableField(f)
    ensures forall b :: b in FieldBindings(section, fields) ==> Writable(b.scalar)
  {
    if fields != [] {
      assert fields[0] in fields && WritableField(fields[0]);
      FieldsWritable(section, fields[1..]);
    }
  }

  lemma {:induction false} OneLineIff(doc: seq<Entry>)
    requires WritableDoc(doc) && Distinct(Bindings(doc)) && forall b :: b in Bindings(doc) ==> OneLine(b)
    ensures ParseText(Print(doc)) == Meaning(map[], Bindings(doc)) <==> AllReadable(Bindings(doc))
  {
    var bs := Bindings(doc);
    DocIsRead(doc);
    BindingsWritable(doc);
    ReadIff(bs);
  }

  lemma {:induction false} ReadIff(bs: seq<Binding>)
    requires Distinct(bs) && forall b :: b in bs ==> OneLine(b) && Writable(b.scalar)
    ensures AsRead(map[], bs) == Meaning(map[], bs) <==> AllReadable(bs)
  {
    forall b | b in bs ensures Denotes(b.scalar) == b.scalar.value <==> Readable(b.scalar) {
      DenotesIff(b.scalar);
    }
    if AllReadable(bs) {
      SameWhenRead(map[], bs);
    } else {
      var i :| 0 <= i < |bs| && !Readable(bs[i].scalar);
      Bound(map[], bs, i);
    }
  }

  /** A printed document, with each name bound once, is read as the flat map it says exactly when each
      of its values has no newline and no first `#` after a space, and, if plain, no white space at its
      end and no quotes around it. Colons, quotes, and in quoted values outer spaces, do no harm. */
  lemma {:induction false} YamlRoundTripIff(doc: seq<Entry>)
    requires WritableDoc(doc) && Distinct(Bindings(doc))
    ensures ParseText(Print(doc)) == Meaning(map[], Bindings(doc)) <==> AllReadable(Bindings(doc))
  {
    var bs := Bindings(doc);
    if forall b :: b in bs ==> OneLine(b) {
      OneLineIff(doc);
    } else {
      var i :| 0 <= i < |bs| && !OneLine(bs[i]);
      Bound(map[], bs, i);
      ReadNoNewlines(Reader("", map[]), Lines(Print(doc)));
    }
  }
}
