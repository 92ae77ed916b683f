/**
  The configuration file format of common/LpConfig.c (file-backed build): what the printer writes, what the
  line parser makes of any text, and exactly which configurations survive a round trip through a file.
 */
module ConfigText {

  /** `char tmp[MAX_LEN]`: one `fgets` delivers at most one character less. */
  const MAX_LEN := 1024

  datatype Item = Item(key: string, value: string)
  datatype Section = Section(name: string, items: seq<Item>)
  type Config = seq<Section>

  /** What one line adds to the configuration. */
  datatype Event = Nothing | NewSection(name: string) | NewItem(key: string, value: string)

  // ---------------------------------------------------------------- strings

  /** `isspace`. */
  predicate IsSpace(c: char) {
    c as int == 32 || 9 <= c as int <= 13
  }

  /** Index of the first `c`, or the length. */
  function Find(s: string, c: char): (k: nat)
    ensures k <= |s| && c !in s[..k] && (k < |s| ==> s[k] == c)
  {
    if s == [] || s[0] == c then 0
    else
      var k := 1 + Find(s[1..], c);
      assert s[..k] == [s[0]] + s[1..][..k - 1];
      k
  }

  lemma {:induction false} FindIs(s: string, c: char, k: nat)
    requires k <= |s| && c !in s[..k] && (k < |s| ==> s[k] == c)
    ensures Find(s, c) == k
  {
    if k > 0 {
      assert s[0] == s[..k][0] && s[1..][..k - 1] == s[..k][1..];
      FindIs(s[1..], c, k - 1);
    }
  }

  /** `sscanf(s, "%s", …)`: white space skipped, then the longest run without any. */
  function Token(s: string): (t: string)
    ensures |t| <= |s| && (forall c | c in t :: c in s && !IsSpace(c))
  {
    if s == [] then []
    else if IsSpace(s[0]) then Token(s[1..])
    else s[..WordLen(s)]
  }

  function WordLen(s: string): (k: nat)
    ensures k <= |s| && (forall c | c in s[..k] :: !IsSpace(c)) && (k < |s| ==> IsSpace(s[k]))
  {
    if s == [] || IsSpace(s[0]) then 0
    else
      var k := 1 + WordLen(s[1..]);
      assert s[..k] == [s[0]] + s[1..][..k - 1];
      k
  }

  lemma {:induction false} WholeWord(s: string)
    requires forall c | c in s :: !IsSpace(c)
    ensures WordLen(s) == |s|
  {
    if s != [] {
      assert s[0] in s;
      WholeWord(s[1..]);
    }
  }

  /** A word is its own token. */
  lemma TokenOfWord(s: string)
    requires forall c | c in s :: !IsSpace(c)
    ensures Token(s) == s
  {
    WholeWord(s);
    if s != [] {
      assert s[0] in s;
      assert s[..|s|] == s;
    }
  }

  lemma {:induction false} SpacesSkipped(t: string, k: nat)
    requires k <= |t| && forall i | 0 <= i < k :: IsSpace(t[i])
    ensures Token(t[k..]) == Token(t)
  {
    if k > 0 {
      SpacesSkipped(t[1..], k - 1);
      assert t[1..][k - 1..] == t[k..];
    }
  }

  lemma {:induction false} WordLenIs(t: string, k: nat)
    requires k <= |t| && (forall i | 0 <= i < k :: !IsSpace(t[i])) && (k < |t| ==> IsSpace(t[k]))
    ensures WordLen(t) == k
  {
    if k > 0 {
      WordLenIs(t[1..], k - 1);
    }
  }

  /** What `isspace` accepts, in so many characters. */
  ghost predicate WhiteChar(c: char) {
    c == ' ' || c == '\t' || c == '\n' || c == '\r' || c as int == 11 || c as int == 12
  }

  ghost predicate White(s: string) {
    forall i | 0 <= i < |s| :: WhiteChar(s[i])
  }

  ghost predicate NoWhite(s: string) {
    forall i | 0 <= i < |s| :: !WhiteChar(s[i])
  }

  /** A word is found between white space, whatever follows that. */
  lemma TokenPadded(a: string, k: string, b: string)
    requires White(a) && k != [] && NoWhite(k) && (b != [] ==> WhiteChar(b[0]))
    ensures Token(a + k + b) == k
  {
    assert a + k + b == a + (k + b);
    TokenBehind(a, k + b);
    TokenFirst(k, b);
  }

  lemma TokenBehind(a: string, u: string)
    requires White(a)
    ensures Token(a + u) == Token(u)
  {
    var t := a + u;
    assert t[|a|..] == u;
    assert forall i | 0 <= i < |a| :: t[i] == a[i];
    SpacesSkipped(t, |a|);
  }

  lemma TokenFirst(k: string, b: string)
    requires k != [] && NoWhite(k) && (b != [] ==> WhiteChar(b[0]))
    ensures Token(k + b) == k
  {
    var u := k + b;
    assert forall i | 0 <= i < |k| :: u[i] == k[i];
    WordLenIs(u, |k|);
    assert u[..|k|] == k && u[0] == k[0];
  }

  lemma TokenOfWhite(a: string)
    requires White(a)
    ensures Token(a) == []
  {
    SpacesSkipped(a, |a|);
    assert a[|a|..] == [];
  }

  predicate Blank(s: string) {
    forall i | 0 <= i < |s| :: s[i] == ' '
  }

  /** Trailing spaces go, but never the first character. */
  function TrimEnd(s: string): (t: string)
    ensures t <= s && (s != [] ==> t != [])
    ensures |t| > 1 ==> t[|t| - 1] != ' '
    ensures t == s <==> |s| <= 1 || s[|s| - 1] != ' '
    ensures forall i | |t| <= i < |s| :: s[i] == ' '
  {
    if |s| > 1 && s[|s| - 1] == ' ' then TrimEnd(s[..|s| - 1]) else s
  }

  // ---------------------------------------------------------------- parser

  /** One line, as a C string. Without a newline the value is taken as it stands, even if it is empty; with
      one, an empty value makes no item and trailing spaces are dropped. */
  function ParseLine(line: string): (e: Event) {
    var b := Find(line, '[');
    if b < |line| && Blank(line[..b]) then
      SectionEvent(line[b + 1..])
    else
      var q := Find(line, '=');
      if q == |line| || Token(line[..q]) == [] then Nothing
      else ValueEvent(Token(line[..q]), line[q + 1..])
  }

  /** Behind the opening bracket: the first word before the closing one. */
  function SectionEvent(s: string): (e: Event) {
    var n := Find(s, ']');
    if n < |s| && Token(s[..n]) != [] then NewSection(Token(s[..n])) else Nothing
  }

  function ValueEvent(key: string, v: string): (e: Event) {
    var n := Find(v, '\n');
    if n == |v| then NewItem(key, v)
    else if n == 0 then Nothing
    else NewItem(key, TrimEnd(v[..n]))
  }

  /** An item before any section is dropped. */
  function Apply(cfg: Config, e: Event): (cfg': Config) {
    match e
    case Nothing => cfg
    case NewSection(n) => cfg + [Section(n, [])]
    case NewItem(k, v) =>
      if cfg == [] then cfg
      else
        var last := cfg[|cfg| - 1];
        cfg[..|cfg| - 1] + [last.(items := last.items + [Item(k, v)])]
  }

  /** How much the next `fgets` takes: through the newline, or until the buffer is full. */
  function ChunkLen(text: string, room: nat): (n: nat)
    ensures n <= |text| && n <= room
    ensures text != [] && room > 0 ==> n > 0
  {
    if text == [] || room == 0 then 0
    else if text[0] == '\n' then 1
    else 1 + ChunkLen(text[1..], room - 1)
  }

  function CString(s: string): (t: string)
    ensures t <= s && '\0' !in t && (t == s || s[|t|] == '\0')
  {
    s[..Find(s, '\0')]
  }

  function ParseText(cfg: Config, text: string): (cfg': Config)
    decreases |text|
  {
    if text == [] then cfg
    else
      var n := ChunkLen(text, MAX_LEN - 1);
      ParseText(Apply(cfg, ParseLine(CString(text[..n]))), text[n..])
  }

  // ---------------------------------------------------------------- printer

  function ItemLine(i: Item): (s: string) {
    i.key + "=" + i.value + "\n"
  }

  function PrintItems(xs: seq<Item>): (s: string) {
    if xs == [] then "" else ItemLine(xs[0]) + PrintItems(xs[1..])
  }

  function PrintSection(s: Section): (t: string) {
    "[" + s.name + "]\n" + PrintItems(s.items) + "\n"
  }

  function Print(cfg: Config): (s: string) {
    if cfg == [] then "" else PrintSection(cfg[0]) + Print(cfg[1..])
  }

  /** The printed file in so many characters. */
  lemma PrintedShape(n: string, k: string, v: string, k': string, v': string, more: Config)
    ensures Print([Section(n, [Item(k, v), Item(k', v')])] + more)
         == "[" + n + "]\n" + k + "=" + v + "\n" + k' + "=" + v' + "\n" + "\n" + Print(more)
  {
    var xs := [Item(k, v), Item(k', v')];
    assert xs[1..] == [xs[1]] && [xs[1]][1..] == [];
    assert PrintItems([]) == "" && PrintItems([xs[1]]) == ItemLine(xs[1]) + "";
    assert PrintItems(xs) == ItemLine(xs[0]) + ItemLine(xs[1]);
    assert ([Section(n, xs)] + more)[1..] == more;
  }

  // ---------------------------------------------------------------- configurations as event lists

  function ItemEvents(xs: seq<Item>): (es: seq<Event>) {
    if xs == [] then [] else [NewItem(xs[0].key, xs[0].value)] + ItemEvents(xs[1..])
  }

  function Events(cfg: Config): (es: seq<Event>) {
    if cfg == [] then [] else [NewSection(cfg[0].name)] + ItemEvents(cfg[0].items) + Events(cfg[1..])
  }

  function Build(cfg: Config, es: seq<Event>): (cfg': Config)
    decreases |es|
  {
    if es == [] then cfg else Build(Apply(cfg, es[0]), es[1..])
  }

  lemma {:induction false} BuildAppend(cfg: Config, es: seq<Event>, fs: seq<Event>)
    ensures Build(cfg, es + fs) == Build(Build(cfg, es), fs)
    decreases |es|
  {
    if es == [] {
      assert es + fs == fs;
    } else {
      assert (es + fs)[1..] == es[1..] + fs;
      BuildAppend(Apply(cfg, es[0]), es[1..], fs);
    }
  }

  lemma ApplyItem(cfg: Config, name: string, items: seq<Item>, i: Item)
    ensures Apply(cfg + [Section(name, items)], NewItem(i.key, i.value)) == cfg + [Section(name, items + [i])]
  {
    assert (cfg + [Section(name, items)])[..|cfg|] == cfg;
  }

  lemma {:induction false} BuildItems(cfg: Config, name: string, items: seq<Item>, xs: seq<Item>)
    ensures Build(cfg + [Section(name, items)], ItemEvents(xs)) == cfg + [Section(name, items + xs)]
    decreases |xs|
  {
    if xs == [] {
      assert items + xs == items;
    } else {
      ApplyItem(cfg, name, items, xs[0]);
      assert ItemEvents(xs)[1..] == ItemEvents(xs[1..]);
      BuildItems(cfg, name, items + [xs[0]], xs[1..]);
      assert items + [xs[0]] + xs[1..] == items + xs;
    }
  }

  lemma {:induction false} EventsAppend(a: Config, b: Config)
    ensures Events(a + b) == Events(a) + Events(b)
  {
    if a == [] {
      assert a + b == b;
    } else {
      assert (a + b)[1..] == a[1..] + b;
      EventsAppend(a[1..], b);
    }
  }

  lemma EventsOne(s: Section)
    ensures Events([s]) == [NewSection(s.name)] + ItemEvents(s.items)
  {
    assert [s][1..] == [];
    assert Events([]) == [];
  }

  lemma BuildSection(cfg: Config, s: Section)
    ensures Build(cfg, Events([s])) == cfg + [s]
  {
    var head, items := [NewSection(s.name)], ItemEvents(s.items);
    EventsOne(s);
    BuildAppend(cfg, head, items);
    assert Build(cfg, head) == cfg + [Section(s.name, [])] by { assert head[1..] == []; }
    BuildItems(cfg, s.name, [], s.items);
    assert [] + s.items == s.items;
  }

  /** The events of a configuration rebuild it. */
  lemma {:induction false} BuildEvents(cfg: Config, more: Config)
    ensures Build(cfg, Events(more)) == cfg + more
    decreases |more|
  {
    if more == [] {
      assert cfg + more == cfg;
    } else {
      var s, rest := more[0], more[1..];
      assert more == [s] + rest;
      EventsAppend([s], rest);
      BuildAppend(cfg, Events([s]), Events(rest));
      BuildSection(cfg, s);
      BuildEvents(cfg + [s], rest);
      assert cfg + [s] + rest == cfg + more;
    }
  }

  lemma {:induction false} ItemEventsSnoc(xs: seq<Item>, i: Item)
    ensures ItemEvents(xs + [i]) == ItemEvents(xs) + [NewItem(i.key, i.value)]
  {
    if xs == [] {
      assert xs + [i] == [i];
    } else {
      assert (xs + [i])[1..] == xs[1..] + [i];
      ItemEventsSnoc(xs[1..], i);
    }
  }

  /** Applying an event appends it, unless it is void or homeless. */
  lemma EventsApply(cfg: Config, e: Event)
    ensures Events(Apply(cfg, e)) == Events(cfg) + if e.Nothing? || (e.NewItem? && cfg == []) then [] else [e]
  {
    match e
    case Nothing =>
    case NewSection(n) =>
      EventsAppend(cfg, [Section(n, [])]);
      EventsOne(Section(n, []));
    case NewItem(k, v) =>
      if cfg != [] {
        var init, s := cfg[..|cfg| - 1], cfg[|cfg| - 1];
        assert cfg == init + [s];
        EventsAppend(init, [s]);
        EventsAppend(init, [s.(items := s.items + [Item(k, v)])]);
        EventsOne(s);
        EventsOne(s.(items := s.items + [Item(k, v)]));
        ItemEventsSnoc(s.items, Item(k, v));
      }
  }

  /** Building adds at most one event per event, and if it adds that many then it adds exactly those. */
  lemma {:induction false} BuildIsTight(cfg: Config, es: seq<Event>)
    ensures |Events(Build(cfg, es))| <= |Events(cfg)| + |es|
    ensures |Events(Build(cfg, es))| == |Events(cfg)| + |es| ==> Events(Build(cfg, es)) == Events(cfg) + es
    decreases |es|
  {
    if es != [] {
      EventsApply(cfg, es[0]);
      BuildIsTight(Apply(cfg, es[0]), es[1..]);
      assert es == [es[0]] + es[1..];
    }
  }

  // ---------------------------------------------------------------- what the parser can produce

  predicate IsWord(s: string) {
    s != [] && forall c | c in s :: !IsSpace(c) && c != '\0'
  }

  /** The shape of everything a line of at most 1023 characters can yield. */
  predicate Wellformed(e: Event) {
    match e
    case Nothing => true
    case NewSection(n) => IsWord(n) && ']' !in n && |n| + 2 <= 1023
    case NewItem(k, v) =>
      IsWord(k) && '=' !in k && '\n' !in v && '\0' !in v && |k| + 1 + |v| <= 1023
  }

  lemma TokenIsWord(s: string, line: string)
    requires '\0' !in line && (forall c | c in s :: c in line) && Token(s) != []
    ensures IsWord(Token(s))
  {
  }

  lemma ValueIsWellformed(key: string, v: string)
    requires IsWord(key) && '=' !in key && '\0' !in v && |key| + 1 + |v| < MAX_LEN
    ensures Wellformed(ValueEvent(key, v))
  {
    var n := Find(v, '\n');
    assert forall c | c in v[..n] :: c in v;
    if 0 < n < |v| {
      assert forall c | c in TrimEnd(v[..n]) :: c in v[..n];
    }
  }

  lemma LineIsWellformed(line: string)
    requires '\0' !in line && |line| < MAX_LEN
    ensures Wellformed(ParseLine(line))
  {
    var b := Find(line, '[');
    var q := Find(line, '=');
    if b < |line| && Blank(line[..b]) {
      var s := line[b + 1..];
      var n := Find(s, ']');
      assert forall c | c in s[..n] :: c in line;
      if n < |s| && Token(s[..n]) != [] {
        TokenIsWord(s[..n], line);
      }
    } else if q < |line| && Token(line[..q]) != [] {
      TokenIsWord(line[..q], line);
      assert forall c | c in line[q + 1..] :: c in line;
      ValueIsWellformed(Token(line[..q]), line[q + 1..]);
    }
  }

  ghost predicate AllWellformed(es: seq<Event>) {
    forall i | 0 <= i < |es| :: Wellformed(es[i])
  }

  lemma {:induction false} ParseIsWellformed(cfg: Config, text: string)
    requires AllWellformed(Events(cfg))
    ensures AllWellformed(Events(ParseText(cfg, text)))
    decreases |text|
  {
    if text != [] {
      var n := ChunkLen(text, MAX_LEN - 1);
      var line := CString(text[..n]);
      LineIsWellformed(line);
      EventsApply(cfg, ParseLine(line));
      ParseIsWellformed(Apply(cfg, ParseLine(line)), text[n..]);
    }
  }

  // ---------------------------------------------------------------- reading printed lines

  /** The line an event prints as, without its newline. */
  function LineOf(e: Event): (s: string) {
    match e
    case Nothing => ""
    case NewSection(n) => "[" + n + "]"
    case NewItem(k, v) => k + "=" + v
  }

  /** What the parser makes of a printed line: a line that fills the buffer is read without its newline. */
  function Reread(e: Event): (e': Event) {
    var s := LineOf(e);
    ParseLine(if |s| + 1 < MAX_LEN then s + "\n" else s)
  }

  /** The events the file keeps: no leading bracket in a key, and unless the line fills the buffer, a value
      that is not empty and does not end in a space (a lone space is kept). */
  predicate Printable(e: Event) {
    && Wellformed(e)
    && !e.Nothing?
    && (e.NewItem? ==>
          && e.key[0] != '['
          && (|e.key| + 1 + |e.value| == 1023 || (e.value != [] && TrimEnd(e.value) == e.value)))
  }

  lemma SectionLineParses(n: string, tail: string)
    requires IsWord(n) && ']' !in n
    ensures ParseLine("[" + n + "]" + tail) == NewSection(n)
  {
    var line := "[" + n + "]" + tail;
    FindIs(line, '[', 0);
    var s := line[1..];
    assert s == n + "]" + tail;
    assert s[..|n|] == n && s[|n|] == ']';
    FindIs(s, ']', |n|);
    TokenOfWord(n);
  }

  lemma SectionReread(n: string)
    requires Wellformed(NewSection(n))
    ensures Reread(NewSection(n)) == NewSection(n)
  {
    var s := "[" + n + "]";
    SectionLineParses(n, "\n");
    SectionLineParses(n, "");
    assert s + "" == s;
  }

  lemma FirstBracket(k: string, rest: string)
    requires IsWord(k)
    ensures var line := k + rest;
            var b := Find(line, '[');
            b < |line| && Blank(line[..b]) <==> k[0] == '['
  {
    var line := k + rest;
    var b := Find(line, '[');
    if k[0] == '[' {
      FindIs(line, '[', 0);
    } else if b < |line| {
      assert b > 0;
      assert k[0] in k && line[..b][0] == k[0];
    }
  }

  /** What follows the key is read as the value. */
  lemma ItemLineParses(k: string, w: string)
    requires IsWord(k) && '=' !in k && k[0] != '['
    ensures ParseLine(k + ("=" + w)) == ValueEvent(k, w)
  {
    var line := k + ("=" + w);
    FirstBracket(k, "=" + w);
    assert line[..|k|] == k;
    FindIs(line, '=', |k|);
    TokenOfWord(k);
    assert line[|k| + 1..] == w;
  }

  /** Find by indices. */
  lemma FindAt(s: string, c: char, k: nat)
    requires k <= |s| && (forall i | 0 <= i < k :: s[i] != c) && (k < |s| ==> s[k] == c)
    ensures Find(s, c) == k
  {
    assert forall i | 0 <= i < k :: s[..k][i] == s[i];
    FindIs(s, c, k);
  }

  /** An item as one may write it by hand: white space around the key, any text behind the sign. */
  lemma ItemLineMeans(a: string, k: string, b: string, w: string)
    requires White(a) && White(b) && IsWord(k) && NoWhite(k)
    requires '=' !in k && k[0] != '['
    ensures ParseLine(a + k + b + ("=" + w)) == ValueEvent(k, w)
  {
    PaddedKey(a, k, b, a + k + b);
    TokenPadded(a, k, b);
    ItemOfHead(a + k + b, k, w, |a|);
  }

  lemma ItemOfHead(head: string, k: string, w: string, i: nat)
    requires (forall x | 0 <= x < |head| :: head[x] != '=') && Token(head) == k != []
    requires i < |head| && head[i] != ' ' && forall x | 0 <= x <= i :: head[x] != '['
    ensures ParseLine(head + ("=" + w)) == ValueEvent(k, w)
  {
    var line, q := head + ("=" + w), |head|;
    assert forall x | 0 <= x < q :: line[x] == head[x];
    FindAt(line, '=', q);
    NotASection(line, i);
    assert line[..q] == head && line[q + 1..] == w;
    ItemBranch(line, q);
  }

  lemma ItemBranch(line: string, q: nat)
    requires q < |line| && Find(line, '=') == q && Token(line[..q]) != []
    requires var j := Find(line, '['); !(j < |line| && Blank(line[..j]))
    ensures ParseLine(line) == ValueEvent(Token(line[..q]), line[q + 1..])
  {
  }

  lemma PaddedKey(a: string, k: string, b: string, head: string)
    requires White(a) && White(b) && k != [] && NoWhite(k) && '=' !in k && k[0] != '[' && head == a + k + b
    ensures forall x | 0 <= x < |head| :: head[x] != '='
    ensures |a| < |head| && head[|a|] != ' ' && forall x | 0 <= x <= |a| :: head[x] != '['
  {
    forall x | 0 <= x < |head|
      ensures head[x] != '='
    {
      assert |a| <= x < |a + k| ==> head[x] == k[x - |a|] && k[x - |a|] in k;
    }
    assert head[|a|] == k[0] && !WhiteChar(k[0]);
  }

  /** What stands before the first bracket must be spaces. */
  lemma NotASection(line: string, i: nat)
    requires i < |line| && line[i] != ' ' && forall x | 0 <= x <= i :: line[x] != '['
    ensures var j := Find(line, '[');
            !(j < |line| && Blank(line[..j])) && !ParseLine(line).NewSection?
  {
    var j := Find(line, '[');
    assert i < j < |line| ==> line[..j][i] == line[i];
  }

  /** A section as one may write it by hand: spaces in front, white space around the name, anything behind. */
  lemma SectionLineMeans(sp: string, a: string, n: string, b: string, tail: string)
    requires Blank(sp) && White(a) && White(b) && IsWord(n) && NoWhite(n)
    requires ']' !in n
    ensures ParseLine(sp + "[" + (a + n + b + "]" + tail)) == NewSection(n)
  {
    var s := a + n + b + "]" + tail;
    var line := sp + "[" + s;
    assert line[..|sp|] == sp && line[|sp|] == '[' && line[|sp| + 1..] == s;
    FindIs(line, '[', |sp|);
    var m := |a + n + b|;
    assert s[..m] == a + n + b && s[m] == ']';
    FindIs(s, ']', m);
    TokenPadded(a, n, b);
  }

  /** The value: up to the newline and without the spaces at its end, or all there is; nothing at all is no value. */
  lemma ValueMeans(k: string, v: string, sp: string, rest: string)
    requires '\n' !in v && Blank(sp) && (|v| > 1 ==> v[|v| - 1] != ' ')
    ensures v != [] ==> ValueEvent(k, v + sp + "\n" + rest) == NewItem(k, v)
    ensures ValueEvent(k, v + sp) == NewItem(k, v + sp)
    ensures ValueEvent(k, "\n" + rest) == Nothing
  {
    var w := v + sp + "\n" + rest;
    var m := |v + sp|;
    assert w[..m] == v + sp && w[m] == '\n';
    FindIs(w, '\n', m);
    FindIs(v + sp, '\n', m);
    assert (v + sp)[..m] == v + sp;
    FindIs("\n" + rest, '\n', 0);
    if v != [] {
      TrimSpacesAfter(v, sp);
    }
  }

  lemma {:induction false} TrimSpacesAfter(v: string, sp: string)
    requires v != [] && Blank(sp) && (|v| > 1 ==> v[|v| - 1] != ' ')
    ensures TrimEnd(v + sp) == v
    decreases |sp|
  {
    if sp == [] {
      assert v + sp == v;
    } else {
      var n := |sp| - 1;
      assert (v + sp)[..|v + sp| - 1] == v + sp[..n];
      TrimSpacesAfter(v, sp[..n]);
    }
  }

  /** A bracket that is not closed, a section without a name and an item without a key mean nothing. */
  lemma NamelessLines(sp: string, s: string, a: string, tail: string)
    requires Blank(sp) && ']' !in s && White(a)
    ensures ParseLine(sp + "[" + s) == Nothing
    ensures ParseLine(sp + "[" + (a + "]" + tail)) == Nothing
    ensures ParseLine(a + "=") == Nothing
  {
    BracketBranch(sp, s);
    FindIs(s, ']', |s|);
    BracketBranch(sp, a + "]" + tail);
    NoName(a, tail);
    NoKey(a);
  }

  lemma NoName(a: string, tail: string)
    requires White(a)
    ensures SectionEvent(a + "]" + tail) == Nothing
  {
    var t := a + "]" + tail;
    assert forall x | 0 <= x < |a| :: t[x] == a[x];
    FindAt(t, ']', |a|);
    assert t[..|a|] == a;
    TokenOfWhite(a);
  }

  lemma NoKey(a: string)
    requires White(a)
    ensures ParseLine(a + "=") == Nothing
  {
    var line := a + "=";
    assert forall x | 0 <= x < |a| :: line[x] == a[x];
    FindAt(line, '=', |a|);
    FindAt(line, '[', |line|);
    assert line[..|a|] == a;
    TokenOfWhite(a);
  }

  lemma BracketBranch(sp: string, s: string)
    requires Blank(sp)
    ensures ParseLine(sp + "[" + s) == SectionEvent(s)
  {
    var line := sp + "[" + s;
    assert line[..|sp|] == sp && line[|sp| + 1..] == s;
    assert forall x | 0 <= x < |sp| :: line[x] == sp[x];
    FindAt(line, '[', |sp|);
  }

  /** A line without a bracket and without a sign means nothing. */
  lemma OtherLine(line: string)
    requires '[' !in line && '=' !in line
    ensures ParseLine(line) == Nothing
  {
    FindIs(line, '[', |line|);
    FindIs(line, '=', |line|);
  }

  lemma BracketLineMakesNoItem(k: string, w: string)
    requires IsWord(k) && k[0] == '['
    ensures !ParseLine(k + ("=" + w)).NewItem?
  {
    FirstBracket(k, "=" + w);
  }

  lemma ItemReread(k: string, v: string)
    requires Wellformed(NewItem(k, v))
    ensures Reread(NewItem(k, v)) == NewItem(k, v) <==> Printable(NewItem(k, v))
  {
    var full := |k| + 1 + |v| == MAX_LEN - 1;
    var w := if full then v else v + "\n";
    assert k + ("=" + w) == if full then k + "=" + v else k + "=" + v + "\n";
    if k[0] == '[' {
      BracketLineMakesNoItem(k, w);
    } else {
      ItemLineParses(k, w);
      assert w[..|v|] == v;
      FindIs(w, '\n', |v|);
    }
  }

  /** A well-formed event survives printing and reading exactly when it is printable. */
  lemma RereadIff(e: Event)
    requires Wellformed(e) && !e.Nothing?
    ensures Reread(e) == e <==> Printable(e)
  {
    match e
    case NewSection(n) => SectionReread(n);
    case NewItem(k, v) => ItemReread(k, v);
  }

  lemma {:induction false} ChunkOfLine(s: string, rest: string, room: nat)
    requires '\n' !in s && |s| <= room
    ensures ChunkLen(s + "\n" + rest, room) == if |s| < room then |s| + 1 else |s|
  {
    var text := s + "\n" + rest;
    if s != [] {
      assert text[1..] == s[1..] + "\n" + rest;
      ChunkOfLine(s[1..], rest, room - 1);
    }
  }

  lemma NulFree(s: string)
    requires '\0' !in s
    ensures CString(s) == s
  {
    FindIs(s, '\0', |s|);
  }

  /** A read stops behind the first newline, when the buffer is full, or at the end of the text, and not before. */
  lemma {:induction false} ChunkMeans(text: string, room: nat)
    ensures var n := ChunkLen(text, room);
            && (n > 0 ==> '\n' !in text[..n - 1])
            && (n == room || n == |text| || (n > 0 && text[n - 1] == '\n'))
    decreases |text|
  {
    if text != [] && room > 0 && text[0] != '\n' {
      var n := ChunkLen(text[1..], room - 1);
      ChunkMeans(text[1..], room - 1);
      if n > 0 {
        assert text[..n] == [text[0]] + text[1..][..n - 1];
      }
    }
  }

  /** Reading a printed line behind whatever was read before. */
  lemma ParsePrintedLine(cfg: Config, s: string, rest: string)
    requires '\n' !in s && '\0' !in s && |s| < MAX_LEN
    ensures ParseText(cfg, s + "\n" + rest)
         == ParseText(Apply(cfg, ParseLine(if |s| + 1 < MAX_LEN then s + "\n" else s)), rest)
  {
    var text := s + "\n" + rest;
    ChunkOfLine(s, rest, MAX_LEN - 1);
    if |s| + 1 < MAX_LEN {
      assert text[..|s| + 1] == s + "\n" && text[|s| + 1..] == rest;
      NulFree(s + "\n");
    } else {
      assert text[..|s|] == s && text[|s|..] == "\n" + rest;
      NulFree(s);
      BlankLine(Apply(cfg, ParseLine(s)), rest);
    }
  }

  /** A newline on its own means nothing. */
  lemma BlankLine(cfg: Config, rest: string)
    ensures ParseText(cfg, "\n" + rest) == ParseText(cfg, rest)
  {
    var text := "\n" + rest;
    assert text[..1] == "\n" && text[1..] == rest;
    NulFree("\n");
    FindIs("\n", '[', 1);
    FindIs("\n", '=', 1);
  }

  function RereadAll(es: seq<Event>): (fs: seq<Event>)
    ensures |fs| == |es| && forall i | 0 <= i < |es| :: fs[i] == Reread(es[i])
  {
    seq(|es|, i requires 0 <= i < |es| => Reread(es[i]))
  }

  lemma LineShape(e: Event)
    requires Wellformed(e)
    ensures '\n' !in LineOf(e) && '\0' !in LineOf(e) && |LineOf(e)| < MAX_LEN
  {
    assert IsSpace('\n');
  }

  lemma {:induction false} ParsePrintedItems(cfg: Config, xs: seq<Item>, rest: string)
    requires AllWellformed(ItemEvents(xs))
    ensures ParseText(cfg, PrintItems(xs) + rest) == ParseText(Build(cfg, RereadAll(ItemEvents(xs))), rest)
    decreases |xs|
  {
    if xs == [] {
      assert PrintItems(xs) + rest == rest;
    } else {
      var es := ItemEvents(xs);
      assert es[1..] == ItemEvents(xs[1..]);
      var s, tail := LineOf(es[0]), PrintItems(xs[1..]) + rest;
      assert PrintItems(xs) + rest == s + "\n" + tail;
      LineShape(es[0]);
      ParsePrintedLine(cfg, s, tail);
      ParsePrintedItems(Apply(cfg, Reread(es[0])), xs[1..], rest);
      assert RereadAll(es)[1..] == RereadAll(es[1..]);
    }
  }

  lemma RereadAppend(a: seq<Event>, b: seq<Event>)
    ensures RereadAll(a + b) == RereadAll(a) + RereadAll(b)
  {
  }

  lemma ParsePrintedSection(cfg: Config, s: Section, rest: string)
    requires AllWellformed(Events([s]))
    ensures ParseText(cfg, PrintSection(s) + rest) == ParseText(Build(cfg, RereadAll(Events([s]))), rest)
  {
    EventsOne(s);
    var head, items := NewSection(s.name), ItemEvents(s.items);
    assert Events([s])[0] == head && Events([s])[1..] == items;
    var tail := PrintItems(s.items) + ("\n" + rest);
    assert PrintSection(s) + rest == LineOf(head) + "\n" + tail;
    LineShape(head);
    ParsePrintedLine(cfg, LineOf(head), tail);
    var cfg' := Apply(cfg, Reread(head));
    ParsePrintedItems(cfg', s.items, "\n" + rest);
    BlankLine(Build(cfg', RereadAll(items)), rest);
    RereadAppend([head], items);
    assert RereadAll(Events([s]))[1..] == RereadAll(items);
  }

  lemma {:induction false} ParsePrinted(cfg: Config, more: Config)
    requires AllWellformed(Events(more))
    ensures ParseText(cfg, Print(more)) == Build(cfg, RereadAll(Events(more)))
    decreases |more|
  {
    if more != [] {
      assert more == [more[0]] + more[1..];
      EventsAppend([more[0]], more[1..]);
      var a, b := Events([more[0]]), Events(more[1..]);
      assert forall i | 0 <= i < |a| :: a[i] == (a + b)[i];
      assert forall i | 0 <= i < |b| :: b[i] == (a + b)[|a| + i];
      ParsePrintedSection(cfg, more[0], Print(more[1..]));
      ParsePrinted(Build(cfg, RereadAll(a)), more[1..]);
      RereadAppend(a, b);
      BuildAppend(cfg, RereadAll(a), RereadAll(b));
    }
  }

  ghost predicate AllPrintable(es: seq<Event>) {
    forall i | 0 <= i < |es| :: Printable(es[i])
  }

  lemma RereadAllIff(es: seq<Event>)
    requires AllWellformed(es) && forall i | 0 <= i < |es| :: !es[i].Nothing?
    ensures RereadAll(es) == es <==> AllPrintable(es)
  {
    var fs := RereadAll(es);
    forall i | 0 <= i < |es|
      ensures fs[i] == es[i] <==> Printable(es[i])
    {
      RereadIff(es[i]);
    }
  }

  /** Rebuilding from as many events as there were restores the configuration only from those very events. */
  lemma BuildIff(cfg: Config, fs: seq<Event>)
    requires |fs| == |Events(cfg)|
    ensures Build([], fs) == cfg <==> fs == Events(cfg)
  {
    BuildIsTight([], fs);
    BuildEvents([], cfg);
    assert [] + cfg == cfg && Events([]) + fs == fs;
  }

  /** Parsing the printed file restores the configuration exactly when every section and item is printable. */
  lemma RoundTripIff(cfg: Config)
    ensures ParseText([], Print(cfg)) == cfg <==> AllPrintable(Events(cfg))
  {
    var es := Events(cfg);
    EventsAreReal(cfg);
    if AllWellformed(es) {
      ParsePrinted([], cfg);
      BuildIff(cfg, RereadAll(es));
      RereadAllIff(es);
    } else {
      assert Events([]) == [];
      ParseIsWellformed([], Print(cfg));
    }
  }

  lemma {:induction false} EventsAreReal(cfg: Config)
    ensures forall i | 0 <= i < |Events(cfg)| :: !Events(cfg)[i].Nothing?
  {
    if cfg != [] {
      ItemEventsAreItems(cfg[0].items);
      EventsAreReal(cfg[1..]);
    }
  }

  lemma {:induction false} ItemEventsAreItems(xs: seq<Item>)
    ensures forall i | 0 <= i < |ItemEvents(xs)| :: ItemEvents(xs)[i].NewItem?
  {
    if xs != [] {
      ItemEventsAreItems(xs[1..]);
    }
  }
}
