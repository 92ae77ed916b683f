/** The in-memory configuration of common/LpConfig.c: reading a file through a line buffer, looking up and
    changing values. */
module LpConfigStore {
  import opened ConfigText
  import opened Wrappers

  // ---------------------------------------------------------------- the line buffer

  /** `tmp` holds a C string from `from` on, which ends at `end`. */
  ghost predicate StringAt(tmp: array<char>, from: nat, end: nat)
    reads tmp
  {
    from <= end < tmp.Length && tmp[end] == '\0' && forall i | from <= i < end :: tmp[i] != '\0'
  }

  method Fgets(tmp: array<char>, text: string) returns (n: nat)
    requires tmp.Length == 1024
    modifies tmp
    ensures n == ChunkLen(text, 1023)
    ensures tmp[..n] == text[..n] && tmp[n] == '\0'
  {
    n := 0;
    while n < MAX_LEN - 1 && n < |text|
      invariant n <= MAX_LEN - 1 && n <= |text| && tmp[..n] == text[..n]
      invariant n + ChunkLen(text[n..], MAX_LEN - 1 - n) == ChunkLen(text, MAX_LEN - 1)
    {
      tmp[n] := text[n];
      n := n + 1;
      assert text[n - 1..][1..] == text[n..];
      assert tmp[..n] == tmp[..n - 1] + [text[n - 1]];
      if text[n - 1] == '\n' {
        break;
      }
    }
    ghost var got := tmp[..n];
    tmp[n] := '\0';
    assert tmp[..n] == got;
  }

  method Strchr(tmp: array<char>, from: nat, c: char, ghost end: nat) returns (found: bool, pos: nat)
    requires StringAt(tmp, from, end) && c != '\0'
    ensures pos == from + Find(tmp[from..end], c) <= end
    ensures found <==> pos < end
  {
    pos := from;
    while tmp[pos] != '\0' && tmp[pos] != c
      invariant from <= pos <= end && c !in tmp[from..pos]
      decreases end - pos
    {
      assert tmp[from..pos + 1] == tmp[from..pos] + [tmp[pos]];
      pos := pos + 1;
    }
    assert tmp[from..end][..pos - from] == tmp[from..pos];
    assert pos < end ==> tmp[pos] == tmp[from..end][pos - from] && tmp[pos] in tmp[from..end];
    FindIs(tmp[from..end], c, pos - from);
    found := tmp[pos] == c;
  }

  method IsFirstChar(tmp: array<char>, pos: nat) returns (b: bool)
    requires pos <= tmp.Length
    ensures b <==> Blank(tmp[..pos])
  {
    for p := 0 to pos
      invariant Blank(tmp[..p])
    {
      if tmp[p] != ' ' {
        assert tmp[..pos][p] != ' ';
        return false;
      }
    }
    return true;
  }

  method SscanfWord(tmp: array<char>, from: nat, ghost end: nat) returns (w: string)
    requires StringAt(tmp, from, end)
    ensures w == Token(tmp[from..end])
  {
    var p := SkipSpaces(tmp, from, end);
    w := TakeWord(tmp, p, end);
  }

  method SkipSpaces(tmp: array<char>, from: nat, ghost end: nat) returns (p: nat)
    requires StringAt(tmp, from, end)
    ensures StringAt(tmp, p, end) && (p < end ==> !IsSpace(tmp[p]))
    ensures Token(tmp[p..end]) == Token(tmp[from..end])
  {
    p := from;
    while tmp[p] != '\0' && IsSpace(tmp[p])
      invariant from <= p <= end && forall i | from <= i < p :: IsSpace(tmp[i])
      decreases end - p
    {
      p := p + 1;
    }
    SkippedTo(tmp, from, p, end);
  }

  lemma SkippedTo(tmp: array<char>, from: nat, p: nat, end: nat)
    requires StringAt(tmp, from, end) && from <= p <= end && forall i | from <= i < p :: IsSpace(tmp[i])
    ensures StringAt(tmp, p, end) && Token(tmp[p..end]) == Token(tmp[from..end])
    ensures tmp[p] == '\0' <==> p == end
  {
    StringFrom(tmp, from, p, end);
    SpacesSkipped(tmp[from..end], p - from);
  }

  method TakeWord(tmp: array<char>, p: nat, ghost end: nat) returns (w: string)
    requires StringAt(tmp, p, end)
    ensures w == tmp[p..end][..WordLen(tmp[p..end])]
  {
    var q := p;
    w := [];
    while tmp[q] != '\0' && !IsSpace(tmp[q])
      invariant p <= q <= end && w == tmp[p..q] && forall i | p <= i < q :: !IsSpace(tmp[i])
      decreases end - q
    {
      w := w + [tmp[q]];
      q := q + 1;
    }
    WordLenIs(tmp[p..end], q - p);
  }

  lemma TrimStep(u: string)
    requires u != []
    ensures TrimEnd(u) == if |u| > 1 && u[|u| - 1] == ' ' then TrimEnd(u[..|u| - 1]) else u
  {
  }

  /** From the last character of a value backwards: trailing spaces become terminators. */
  method TrimSpaces(tmp: array<char>, pos1: nat, last: nat)
    requires pos1 <= last && StringAt(tmp, pos1, last + 1)
    modifies tmp
    ensures CString(tmp[pos1..]) == TrimEnd(old(tmp[pos1..last + 1]))
  {
    var pos2 := last;
    ghost var v := tmp[pos1..last + 1];
    ghost var u := v;
    while pos2 > pos1 && tmp[pos2] == ' '
      invariant pos1 <= pos2 <= last && StringAt(tmp, pos1, pos2 + 1)
      invariant u == tmp[pos1..pos2 + 1] && TrimEnd(u) == TrimEnd(v)
    {
      TrimStep(u);
      u := u[..|u| - 1];
      tmp[pos2] := '\0';
      pos2 := pos2 - 1;
    }
    TrimStep(u);
    CStringAt(tmp, pos1, pos2 + 1);
  }

  lemma CStringAt(tmp: array<char>, from: nat, end: nat)
    requires StringAt(tmp, from, end)
    ensures CString(tmp[from..]) == tmp[from..end]
  {
    assert tmp[from..][..end - from] == tmp[from..end];
    FindIs(tmp[from..], '\0', end - from);
  }

  lemma StringFrom(tmp: array<char>, i: nat, j: nat, end: nat)
    requires StringAt(tmp, i, end) && i <= j <= end
    ensures StringAt(tmp, j, end) && tmp[j..end] == tmp[i..end][j - i..]
  {
    assert tmp[j..end] == tmp[i..end][j - i..];
  }

  /** A terminator at `pos` cuts the string at `from` in two. */
  method Terminate(tmp: array<char>, from: nat, pos: nat, ghost end: nat)
    requires StringAt(tmp, from, end) && from <= pos < end
    modifies tmp
    ensures StringAt(tmp, from, pos) && tmp[from..pos] == old(tmp[from..end])[..pos - from]
    ensures StringAt(tmp, pos + 1, end) && tmp[pos + 1..end] == old(tmp[from..end])[pos + 1 - from..]
  {
    ghost var s := tmp[from..end];
    tmp[pos] := '\0';
    assert tmp[from..pos] == s[..pos - from];
    assert tmp[pos + 1..end] == s[pos + 1 - from..];
  }

  /** Behind the '=': the value, up to its newline and without trailing spaces. */
  method ReadValue(tmp: array<char>, pos1: nat, key: string, ghost end: nat) returns (e: Event)
    requires StringAt(tmp, pos1, end)
    modifies tmp
    ensures e == ValueEvent(key, old(tmp[pos1..end]))
  {
    var found, pos2 := Strchr(tmp, pos1, '\n', end);
    if !found {
      CStringAt(tmp, pos1, end);
      return NewItem(key, CString(tmp[pos1..]));
    }
    Terminate(tmp, pos1, pos2, end);
    if pos2 == pos1 {
      return Nothing;
    }
    TrimSpaces(tmp, pos1, pos2 - 1);
    e := NewItem(key, CString(tmp[pos1..]));
  }

  /** One turn of the loop in `lp_config_parse`. */
  method ParseBuffer(tmp: array<char>, ghost end: nat) returns (e: Event)
    requires StringAt(tmp, 0, end)
    modifies tmp
    ensures e == ParseLine(old(tmp[0..end]))
  {
    var found, pos1 := Strchr(tmp, 0, '[', end);
    var first := IsFirstChar(tmp, pos1);
    assert tmp[0..end][..pos1] == tmp[..pos1];
    if found && first {
      e := ReadSection(tmp, pos1, end);
    } else {
      e := ReadItem(tmp, end);
    }
  }

  /** The search for the closing bracket starts at the opening one, which is none itself. */
  method ReadSection(tmp: array<char>, pos1: nat, ghost end: nat) returns (e: Event)
    requires StringAt(tmp, 0, end) && pos1 < end && tmp[pos1] == '['
    modifies tmp
    ensures e == SectionEvent(old(tmp[0..end])[pos1 + 1..])
  {
    StringFrom(tmp, 0, pos1, end);
    StringFrom(tmp, 0, pos1 + 1, end);
    var found, pos2 := Strchr(tmp, pos1, ']', end);
    FindBehind(tmp[pos1..end], ']');
    assert tmp[pos1..end][1..] == tmp[pos1 + 1..end];
    if !found {
      return Nothing;
    }
    Terminate(tmp, pos1 + 1, pos2, end);
    var secname := SscanfWord(tmp, pos1 + 1, pos2);
    e := if secname != [] then NewSection(secname) else Nothing;
  }

  lemma FindBehind(s: string, c: char)
    requires s != [] && s[0] != c
    ensures Find(s, c) == 1 + Find(s[1..], c)
  {
  }

  method ReadItem(tmp: array<char>, ghost end: nat) returns (e: Event)
    requires StringAt(tmp, 0, end)
    modifies tmp
    ensures var line := old(tmp[0..end]);
            var q := Find(line, '=');
            e == if q == end || Token(line[..q]) == [] then Nothing
                 else ValueEvent(Token(line[..q]), line[q + 1..])
  {
    var found, pos1 := Strchr(tmp, 0, '=', end);
    if !found {
      return Nothing;
    }
    Terminate(tmp, 0, pos1, end);
    var key := SscanfWord(tmp, 0, pos1);
    if key == [] {
      return Nothing;
    }
    e := ReadValue(tmp, pos1 + 1, key, end);
  }

  /** `fgets` and what the loop makes of its line. */
  method ReadLine(tmp: array<char>, text: string) returns (n: nat, e: Event)
    requires tmp.Length == MAX_LEN
    modifies tmp
    ensures n == ChunkLen(text, MAX_LEN - 1) && e == ParseLine(CString(text[..n]))
  {
    n := Fgets(tmp, text);
    ghost var chunk := text[..n];
    ghost var end := Find(chunk, '\0');
    assert tmp[0..end] == tmp[..n][..end] == chunk[..end];
    assert end < n ==> tmp[end] == tmp[..n][end];
    e := ParseBuffer(tmp, end);
  }

  // ---------------------------------------------------------------- looking up and changing

  /** Position of the first section of that name, or the number of sections. */
  function SectionAt(cfg: Config, name: string): (i: nat)
    ensures i <= |cfg| && (i < |cfg| ==> cfg[i].name == name)
    ensures forall j | 0 <= j < i :: cfg[j].name != name
  {
    if cfg == [] || cfg[0].name == name then 0 else 1 + SectionAt(cfg[1..], name)
  }

  function ItemAt(xs: seq<Item>, key: string): (i: nat)
    ensures i <= |xs| && (i < |xs| ==> xs[i].key == key)
    ensures forall j | 0 <= j < i :: xs[j].key != key
  {
    if xs == [] || xs[0].key == key then 0 else 1 + ItemAt(xs[1..], key)
  }

  lemma {:induction false} SectionAtIs(cfg: Config, name: string, i: nat)
    requires i <= |cfg| && (i < |cfg| ==> cfg[i].name == name)
    requires forall j | 0 <= j < i :: cfg[j].name != name
    ensures SectionAt(cfg, name) == i
  {
    if i > 0 {
      SectionAtIs(cfg[1..], name, i - 1);
    }
  }

  lemma {:induction false} ItemAtIs(xs: seq<Item>, key: string, i: nat)
    requires i <= |xs| && (i < |xs| ==> xs[i].key == key)
    requires forall j | 0 <= j < i :: xs[j].key != key
    ensures ItemAt(xs, key) == i
  {
    if i > 0 {
      ItemAtIs(xs[1..], key, i - 1);
    }
  }

  function ItemValue(xs: seq<Item>, key: string): (v: Option<string>) {
    var i := ItemAt(xs, key);
    if i < |xs| then Some(xs[i].value) else None
  }

  function Lookup(cfg: Config, section: string, key: string): (v: Option<string>) {
    var s := SectionAt(cfg, section);
    if s < |cfg| then ItemValue(cfg[s].items, key) else None
  }

  /** The items of a section after `lp_config_set_string`; no value means removal of the first match. */
  function SetItem(xs: seq<Item>, key: string, value: Option<string>): (ys: seq<Item>) {
    var i := ItemAt(xs, key);
    if i < |xs| then
      if value.Some? then xs[i := Item(key, value.value)] else xs[..i] + xs[i + 1..]
    else
      if value.Some? then xs + [Item(key, value.value)] else xs
  }

  function SetString(cfg: Config, section: string, key: string, value: Option<string>): (cfg': Config) {
    var s := SectionAt(cfg, section);
    if s < |cfg| then cfg[s := cfg[s].(items := SetItem(cfg[s].items, key, value))]
    else if value.Some? then cfg + [Section(section, [Item(key, value.value)])]
    else cfg
  }

  /** The first item of the key is replaced or taken out in its place; a new one is added at the end. */
  ghost predicate ItemsSet(xs: seq<Item>, ys: seq<Item>, key: string, value: Option<string>) {
    if exists i :: 0 <= i < |xs| && xs[i].key == key then
      exists i | 0 <= i < |xs| ::
        && xs[i].key == key && (forall j | 0 <= j < i :: xs[j].key != key)
        && ys == xs[..i] + (if value.Some? then [Item(key, value.value)] else []) + xs[i + 1..]
    else ys == xs + if value.Some? then [Item(key, value.value)] else []
  }

  lemma SetItemMeans(xs: seq<Item>, key: string, value: Option<string>)
    ensures ItemsSet(xs, SetItem(xs, key, value), key, value)
  {
    var ys, i := SetItem(xs, key, value), ItemAt(xs, key);
    if i < |xs| {
      assert xs[i].key == key;
      assert ys == xs[..i] + (if value.Some? then [Item(key, value.value)] else []) + xs[i + 1..];
    }
  }

  /** Setting or removing one key leaves the others of the section as they are. */
  lemma SetItemOther(xs: seq<Item>, key: string, value: Option<string>, other: string)
    requires other != key
    ensures ItemValue(SetItem(xs, key, value), other) == ItemValue(xs, other)
  {
    var ys, i, k := SetItem(xs, key, value), ItemAt(xs, key), ItemAt(xs, other);
    if i < |xs| && value.None? {
      ItemAtIs(ys, other, if k > i then k - 1 else k);
    } else if k < |xs| {
      ItemAtIs(ys, other, k);
    } else {
      ItemAtIs(ys, other, |ys|);
    }
  }

  /** A value that was set is read back; a removal shows the next item of the same key, if the list has one. */
  lemma SetItemSame(xs: seq<Item>, key: string, value: Option<string>)
    ensures value.Some? ==> ItemValue(SetItem(xs, key, value), key) == value
    ensures value.None? ==>
              (ItemValue(SetItem(xs, key, value), key).None? <==>
               forall i, j | 0 <= i < j < |xs| :: xs[i].key == key ==> xs[j].key != key)
  {
    var ys, i := SetItem(xs, key, value), ItemAt(xs, key);
    if value.Some? {
      ItemAtIs(ys, key, i);
    } else if i < |xs| {
      var k := ItemAt(ys, key);
      if k < |ys| {
        assert xs[k + 1] == ys[k];
      } else {
        forall j | i < j < |xs|
          ensures xs[j].key != key
        {
          assert ys[j - 1] == xs[j];
        }
      }
    }
  }

  lemma SetSectionItems(cfg: Config, section: string, key: string, value: Option<string>)
    ensures var cfg' := SetString(cfg, section, key, value);
            var s := SectionAt(cfg, section);
            && (s < |cfg| ==> SectionAt(cfg', section) == s
                              && |cfg'| == |cfg| && cfg'[s].items == SetItem(cfg[s].items, key, value))
            && (forall t, k | t != section :: Lookup(cfg', t, k) == Lookup(cfg, t, k))
  {
    var cfg', s := SetString(cfg, section, key, value), SectionAt(cfg, section);
    if s < |cfg| {
      SectionAtIs(cfg', section, s);
    }
    forall t, k | t != section
      ensures Lookup(cfg', t, k) == Lookup(cfg, t, k)
    {
      var m := SectionAt(cfg, t);
      SectionAtIs(cfg', t, if m < |cfg| then m else |cfg'|);
    }
  }

  /** `lp_config_get_string` after `lp_config_set_string`: the value set is read back, every other section and
      key reads as before, and a removed key reads as absent unless the section listed it twice. */
  lemma GetAfterSet(cfg: Config, section: string, key: string, value: Option<string>)
    ensures var cfg' := SetString(cfg, section, key, value);
            && (value.Some? ==> Lookup(cfg', section, key) == value)
            && (forall t, k | (t, k) != (section, key) :: Lookup(cfg', t, k) == Lookup(cfg, t, k))
            && (value.None? ==>
                  (Lookup(cfg', section, key).None? <==>
                   var s := SectionAt(cfg, section);
                   s < |cfg| ==> forall i, j | 0 <= i < j < |cfg[s].items| ::
                                   cfg[s].items[i].key == key ==> cfg[s].items[j].key != key))
  {
    var cfg', s := SetString(cfg, section, key, value), SectionAt(cfg, section);
    SetSectionItems(cfg, section, key, value);
    if s < |cfg| {
      SetItemSame(cfg[s].items, key, value);
    } else if value.Some? {
      SectionAtIs(cfg', section, |cfg|);
    }
    forall t, k | (t, k) != (section, key)
      ensures Lookup(cfg', t, k) == Lookup(cfg, t, k)
    {
      if t == section && s < |cfg| {
        SetItemOther(cfg[s].items, key, value, k);
      }
    }
  }

  /** An event concerns the last section only, if there is one in the part that is being read. */
  lemma ApplyBehind(cfg: Config, added: Config, e: Event)
    requires added != [] || !e.NewItem?
    ensures Apply(cfg + added, e) == cfg + Apply(added, e)
  {
    if e.NewItem? {
      var n := |added| - 1;
      assert (cfg + added)[..|cfg| + n] == cfg + added[..n];
    }
  }

  class LpConfig {
    var sections: Config
    var modified: nat

    constructor ()
      ensures sections == [] && modified == 0
    {
      sections, modified := [], 0;
    }

    /** `lp_config_parse`: the sections of the text are added to those that are there. The first of them is the
        first section that takes items, so whatever comes before it goes nowhere. */
    method Parse(file: Option<string>)
      modifies this
      ensures sections == old(sections) + match file case Some(text) => ParseText([], text) case None => []
      ensures modified == old(modified)
    {
      if file.None? {
        return;
      }
      var tmp := new char[MAX_LEN];
      var cur := false;
      var rest := file.value;
      ghost var added: Config := [];
      while rest != []
        invariant sections == old(sections) + added && modified == old(modified) && (cur <==> added != [])
        invariant ParseText(added, rest) == ParseText([], file.value)
        decreases |rest|
      {
        var n, e := ReadLine(tmp, rest);
        if cur || !e.NewItem? {
          ApplyBehind(old(sections), added, e);
          sections := Apply(sections, e);
        }
        cur := cur || e.NewSection?;
        added := Apply(added, e);
        rest := rest[n..];
      }
    }

    method FindSection(name: string) returns (i: nat)
      ensures i == SectionAt(sections, name)
    {
      i := 0;
      while i < |sections| && sections[i].name != name
        invariant i <= |sections| && forall j | 0 <= j < i :: sections[j].name != name
      {
        i := i + 1;
      }
      SectionAtIs(sections, name, i);
    }

    method FindItem(s: nat, key: string) returns (i: nat)
      requires s < |sections|
      ensures i == ItemAt(sections[s].items, key)
    {
      i := 0;
      var xs := sections[s].items;
      while i < |xs| && xs[i].key != key
        invariant i <= |xs| && forall j | 0 <= j < i :: xs[j].key != key
      {
        i := i + 1;
      }
      ItemAtIs(xs, key, i);
    }

    method GetString(section: string, key: string, default: string) returns (v: string)
      ensures v == match Lookup(sections, section, key) case Some(x) => x case None => default
    {
      var s := FindSection(section);
      if s < |sections| {
        var i := FindItem(s, key);
        if i < |sections[s].items| {
          return sections[s].items[i].value;
        }
      }
      return default;
    }

    method Set(section: string, key: string, value: Option<string>)
      modifies this
      ensures sections == SetString(old(sections), section, key, value)
      ensures modified == old(modified) + 1
      ensures var s := SectionAt(old(sections), section);
              && (forall j | 0 <= j < |old(sections)| && j != s :: j < |sections| && sections[j] == old(sections)[j])
              && (s == |old(sections)| ==>
                    sections[s..] == if value.Some? then [Section(section, [Item(key, value.value)])] else [])
              && (s < |old(sections)| ==>
                    && |sections| == |old(sections)| && sections[s].name == section
                    && ItemsSet(old(sections)[s].items, sections[s].items, key, value))
    {
      var s := FindSection(section);
      if s < |sections| {
        SetItemMeans(sections[s].items, key, value);
        var i := FindItem(s, key);
        var sec := sections[s];
        if i < |sec.items| {
          if value.Some? {
            sections := sections[s := sec.(items := sec.items[i := Item(key, value.value)])];
          } else {
            sections := sections[s := sec.(items := sec.items[..i] + sec.items[i + 1..])];
          }
        } else if value.Some? {
          sections := sections[s := sec.(items := sec.items + [Item(key, value.value)])];
        }
      } else if value.Some? {
        sections := sections + [Section(section, [Item(key, value.value)])];
      }
      modified := modified + 1;
    }
  }
}
