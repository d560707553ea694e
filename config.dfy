/** `Config_t` of cfg.h: an INI-style file read into a map from
    `section/key` to the raw value text.  A file is the sequence of its
    lines; `atoi` and `atof` are parameters. */
module Config {
  import opened Wrappers

  /** What `_parse_line` makes of a line: a `key=value` entry, a
      `[section]` header, or nothing. */
  datatype LineKind = Entry(key: string, value: string) | Header(name: string) | Blank

  /** The characters stripped from the end of a line. */
  predicate TrailingBlank(c: char) {
    c == '\n' || c == '\r' || c == ' ' || c == '\t'
  }

  /** The characters skipped at the start of a line. */
  predicate LeadingBlank(c: char) {
    c == ' ' || c == '\t'
  }

  /** Where the line is cut: its first `#` at or after `i`, or its end. */
  function HashCut(s: string, i: nat): (c: nat)
    requires i <= |s|
    ensures i <= c <= |s|
    ensures forall k :: i <= k < c ==> s[k] != '#'
    decreases |s| - i
  {
    if i == |s| || s[i] == '#' then i else HashCut(s, i + 1)
  }

  /** The end of `s[..n]` once its trailing blanks are stripped. */
  function EndCut(s: string, n: nat): (e: nat)
    requires n <= |s|
    ensures e <= n && (e == 0 || !TrailingBlank(s[e - 1]))
    ensures forall k :: e <= k < n ==> TrailingBlank(s[k])
  {
    if n > 0 && TrailingBlank(s[n - 1]) then EndCut(s, n - 1) else n
  }

  /** The start of `s[b..n]` once its leading blanks are skipped. */
  function StartCut(s: string, b: nat, n: nat): (r: nat)
    requires b <= n <= |s|
    ensures b <= r <= n && (r == n || !LeadingBlank(s[r]))
    ensures forall k :: b <= k < r ==> LeadingBlank(s[k])
    decreases n - b
  {
    if b < n && LeadingBlank(s[b]) then StartCut(s, b + 1, n) else b
  }

  /** The position of the first `=`. */
  function FirstEquals(s: string): (j: nat)
    requires '=' in s
    ensures j < |s| && s[j] == '=' && '=' !in s[..j]
  {
    if s[0] == '=' then 0 else 1 + FirstEquals(s[1..])
  }

  /** A stripped line: `[name]` is a header (a one-character line cannot
      both open and close), otherwise the first `=` splits key from value,
      with no further trimming, otherwise the line gives nothing. */
  function Classify(t: string): LineKind {
    if |t| >= 2 && t[0] == '[' && t[|t| - 1] == ']' then Header(t[1..|t| - 1])
    else if '=' in t then
      var j := FirstEquals(t);
      Entry(t[..j], t[j + 1..])
    else Blank
  }

  /** The text `_parse_line` classifies: cut at `#`, trailing blanks
      stripped, leading blanks skipped. */
  function Stripped(line: string): string {
    var e := EndCut(line, HashCut(line, 0));
    line[StartCut(line, 0, e)..e]
  }

  /** `_parse_line`. */
  function ParseConfigLine(line: string): LineKind {
    Classify(Stripped(line))
  }

  /** The character loops of `_parse_line` (cfg.h:115-164): the NULs it
      writes become the cut `cut`, the length `len` and the start `beg`. */
  method ParseLine(line: string) returns (r: LineKind)
    ensures r == ParseConfigLine(line)
  {
    var beg, len := StripLine(line);
    r := ClassifyText(line[beg..len]);
  }

  /** The cut at `#`, the strip of the end and the skip of the start
      (cfg.h:120-146). */
  method StripLine(line: string) returns (beg: nat, len: nat)
    ensures beg <= len <= |line| && line[beg..len] == Stripped(line)
  {
    var cut := 0;
    while cut < |line| && line[cut] != '#'
      invariant cut <= |line| && HashCut(line, cut) == HashCut(line, 0)
    {
      cut := cut + 1;
    }
    len := cut;
    while len > 0 && TrailingBlank(line[len - 1])
      invariant len <= cut && EndCut(line, len) == EndCut(line, cut)
    {
      len := len - 1;
    }
    beg := 0;
    while beg < len && LeadingBlank(line[beg])
      invariant beg <= len && StartCut(line, beg, len) == StartCut(line, 0, len)
    {
      beg := beg + 1;
    }
  }

  /** The header test and the scan for `=` (cfg.h:148-163). */
  method ClassifyText(t: string) returns (r: LineKind)
    ensures r == Classify(t)
  {
    if |t| > 0 && t[0] == '[' && t[|t| - 1] == ']' {
      return Header(t[1..|t| - 1]);
    }
    for i := 0 to |t|
      invariant '=' !in t[..i]
    {
      if t[i] == '=' {
        assert FirstEquals(t) == i;
        return Entry(t[..i], t[i + 1..]);
      }
      assert t[..i + 1] == t[..i] + [t[i]];
    }
    assert t[..|t|] == t;
    r := Blank;
  }

  /** The cuts look only at the characters before them. */
  lemma {:induction false} HashCutPrefix(s: string, u: string, i: nat)
    requires i <= |s| && |s| <= |u| && u[..|s|] == s
    requires HashCut(s, i) < |s|
    ensures HashCut(u, i) == HashCut(s, i)
    decreases |s| - i
  {
    assert u[i] == s[i];
    if s[i] != '#' {
      HashCutPrefix(s, u, i + 1);
    }
  }

  lemma {:induction false} HashCutNone(s: string, u: string, i: nat)
    requires i <= |s| <= |u| && u[..|s|] == s && '#' !in s
    ensures HashCut(u, i) == HashCut(u, |s|)
    decreases |s| - i
  {
    if i < |s| {
      assert u[i] == s[i];
      HashCutNone(s, u, i + 1);
    }
  }

  lemma {:induction false} EndCutPrefix(s: string, u: string, n: nat)
    requires n <= |s| && n <= |u| && s[..n] == u[..n]
    ensures EndCut(u, n) == EndCut(s, n)
  {
    if n > 0 {
      assert s[n - 1] == s[..n][n - 1] == u[..n][n - 1] == u[n - 1];
      assert s[..n - 1] == s[..n][..n - 1];
      assert u[..n - 1] == u[..n][..n - 1];
      EndCutPrefix(s, u, n - 1);
    }
  }

  lemma {:induction false} StartCutPrefix(s: string, u: string, b: nat, n: nat)
    requires b <= n <= |s| && n <= |u| && s[..n] == u[..n]
    ensures StartCut(u, b, n) == StartCut(s, b, n)
    decreases n - b
  {
    if b < n {
      assert s[b] == s[..n][b] == u[..n][b] == u[b];
      StartCutPrefix(s, u, b + 1, n);
    }
  }

  /** Two lines that agree up to the end of the first one's stripped text,
      with the same end, classify alike. */
  lemma SameStripped(s: string, u: string, e: nat)
    requires e <= |s| && e <= |u| && s[..e] == u[..e]
    requires EndCut(s, HashCut(s, 0)) == e == EndCut(u, HashCut(u, 0))
    ensures ParseConfigLine(u) == ParseConfigLine(s)
  {
    StartCutPrefix(s, u, 0, e);
    var b := StartCut(s, 0, e);
    assert s[b..e] == s[..e][b..] == u[..e][b..] == u[b..e];
  }

  /** Everything from the first `#` on is ignored. */
  lemma CommentIgnored(a: string, b: string)
    requires '#' !in a
    ensures ParseConfigLine(a + "#" + b) == ParseConfigLine(a)
  {
    var u := a + "#" + b;
    assert u[..|a|] == a && u[|a|] == '#';
    HashCutNone(a, u, 0);
    HashCutNone(a, a, 0);
    EndCutPrefix(a, u, |a|);
    var e := EndCut(a, |a|);
    assert a[..e] == u[..e];
    SameStripped(a, u, e);
  }

  /** A trailing newline, return, space or tab changes nothing. */
  lemma TrailingBlankIgnored(s: string, c: char)
    requires TrailingBlank(c)
    ensures ParseConfigLine(s + [c]) == ParseConfigLine(s)
  {
    var u := s + [c];
    assert u[..|s|] == s;
    var h := HashCut(s, 0);
    if h < |s| {
      HashCutPrefix(s, u, 0);
      EndCutPrefix(s, u, h);
      var e := EndCut(s, h);
      assert s[..e] == u[..e];
      SameStripped(s, u, e);
    } else {
      HashCutNone(s, u, 0);
      HashCutNone(s, s, 0);
      assert HashCut(u, |s|) == |s| + 1;
      assert EndCut(u, |s| + 1) == EndCut(u, |s|);
      EndCutPrefix(s, u, |s|);
      var e := EndCut(s, |s|);
      assert s[..e] == u[..e];
      SameStripped(s, u, e);
    }
  }

  /** The text classified is the line before its first `#`, less only
      trailing blanks and leading spaces and tabs, and it neither starts
      nor ends with one. */
  lemma StrippedShape(line: string)
    ensures var h := HashCut(line, 0);
            var e := EndCut(line, h);
            var b := StartCut(line, 0, e);
            Stripped(line) == line[b..e] && '#' !in line[..h] && (h < |line| ==> line[h] == '#') &&
            (forall k :: e <= k < h ==> TrailingBlank(line[k])) &&
            (forall k :: 0 <= k < b ==> LeadingBlank(line[k])) &&
            (b < e ==> !LeadingBlank(line[b]) && !TrailingBlank(line[e - 1]))
  {
    HashCutStops(line, 0);
  }

  lemma {:induction false} HashCutStops(s: string, i: nat)
    requires i <= |s|
    ensures HashCut(s, i) < |s| ==> s[HashCut(s, i)] == '#'
    decreases |s| - i
  {
    if i < |s| && s[i] != '#' {
      HashCutStops(s, i + 1);
    }
  }

  /** An entry's key holds no `=` and, with the value, makes up the
      stripped line: the split is at the first `=`, and the value may hold
      further `=` and keep its spaces; a header is the bracketed name. */
  lemma EntrySplitsAtFirstEquals(line: string)
    ensures var t := Stripped(line);
            match ParseConfigLine(line)
            case Entry(k, v) => '=' !in k && t == k + "=" + v
            case Header(n) => t == "[" + n + "]"
            case Blank => '=' !in t
  {
    var t := Stripped(line);
    match ParseConfigLine(line)
    case Entry(k, v) =>
      var j := FirstEquals(t);
      assert t == t[..j] + "=" + t[j + 1..];
    case Header(n) =>
      assert t == "[" + t[1..|t| - 1] + "]";
    case Blank =>
  }

  /** The entries a file defines, in order, keyed `section/key` by the last
      header above them ("" before any header) (cfg.h:28-44). */
  function Entries(section: string, lines: seq<string>): seq<(string, string)>
    decreases |lines|
  {
    if lines == [] then []
    else match ParseConfigLine(lines[0])
      case Entry(k, v) => [(section + "/" + k, v)] + Entries(section, lines[1..])
      case Header(n) => Entries(n, lines[1..])
      case Blank => Entries(section, lines[1..])
  }

  /** The map after storing the entries in order. */
  function Store(m: map<string, string>, es: seq<(string, string)>): map<string, string>
    decreases |es|
  {
    if es == [] then m else Store(m[es[0].0 := es[0].1], es[1..])
  }

  /** A key no entry names keeps its old value, or stays absent. */
  lemma {:induction false} UnnamedKeyKept(m: map<string, string>, es: seq<(string, string)>, key: string)
    requires forall j :: 0 <= j < |es| ==> es[j].0 != key
    ensures key in Store(m, es) <==> key in m
    ensures key in m ==> Store(m, es)[key] == m[key]
    decreases |es|
  {
    if es != [] {
      assert es[0].0 != key;
      UnnamedKeyKept(m[es[0].0 := es[0].1], es[1..], key);
    }
  }

  /** A key holds the value of the last entry that names it: a later
      duplicate overwrites an earlier one. */
  lemma {:induction false} LastEntryWins(m: map<string, string>, es: seq<(string, string)>, key: string, j: nat)
    requires j < |es| && es[j].0 == key
    requires forall i :: j < i < |es| ==> es[i].0 != key
    ensures key in Store(m, es) && Store(m, es)[key] == es[j].1
    decreases |es|
  {
    var m1 := m[es[0].0 := es[0].1];
    if j == 0 {
      UnnamedKeyKept(m1, es[1..], key);
    } else {
      LastEntryWins(m1, es[1..], key, j - 1);
    }
  }

  /** `Config_t`: the map `_config`. */
  class Config {
    var entries: map<string, string>

    constructor()
      ensures entries == map[]
    {
      entries := map[];
    }

    /** `load`: every line is parsed; an entry is stored under the current
        section, a header changes the section (cfg.h:28-44). */
    method Load(lines: seq<string>)
      modifies this
      ensures entries == Store(old(entries), Entries("", lines))
    {
      var section := "";
      var i := 0;
      while i < |lines|
        invariant i <= |lines|
        invariant Store(entries, Entries(section, lines[i..])) == Store(old(entries), Entries("", lines))
      {
        assert lines[i..][1..] == lines[i + 1..];
        var kind := ParseLine(lines[i]);
        match kind {
          case Entry(k, v) =>
            entries := entries[section + "/" + k := v];
          case Header(n) =>
            section := n;
          case Blank =>
        }
        i := i + 1;
      }
    }

    /** `conf_str`: the value stored under `section/key`, if any
        (cfg.h:75-83). */
    function ConfStr(section: string, key: string): (r: Option<string>)
      reads this
      ensures r.Some? <==> section + "/" + key in entries
      ensures r.Some? ==> r.value == entries[section + "/" + key]
    {
      if section + "/" + key in entries then Some(entries[section + "/" + key]) else None
    }

    /** `conf_int`: the stored value read with `atoi` (cfg.h:55-63). */
    function ConfInt(section: string, key: string, atoi: string -> int): (r: Option<int>)
      reads this
      ensures r.Some? <==> ConfStr(section, key).Some?
      ensures r.Some? ==> r.value == atoi(ConfStr(section, key).value)
    {
      match ConfStr(section, key)
      case None => None
      case Some(s) => Some(atoi(s))
    }

    /** `conf_float`: the stored value read with `atof` (cfg.h:65-73). */
    function ConfFloat(section: string, key: string, atof: string -> real): (r: Option<real>)
      reads this
      ensures r.Some? <==> ConfStr(section, key).Some?
      ensures r.Some? ==> r.value == atof(ConfStr(section, key).value)
    {
      match ConfStr(section, key)
      case None => None
      case Some(s) => Some(atof(s))
    }

    /** `conf_int_default`: the default only when the key is missing
        (cfg.h:85-92). */
    function ConfIntDefault(section: string, key: string, default: int, atoi: string -> int): (r: int)
      reads this
      ensures section + "/" + key !in entries ==> r == default
      ensures section + "/" + key in entries ==> r == atoi(entries[section + "/" + key])
    {
      match ConfInt(section, key, atoi)
      case None => default
      case Some(n) => n
    }

    /** `conf_float_default` (cfg.h:94-101). */
    function ConfFloatDefault(section: string, key: string, default: real, atof: string -> real): (r: real)
      reads this
      ensures section + "/" + key !in entries ==> r == default
      ensures section + "/" + key in entries ==> r == atof(entries[section + "/" + key])
    {
      match ConfFloat(section, key, atof)
      case None => default
      case Some(x) => x
    }

    /** `conf_str_default` (cfg.h:103-110). */
    function ConfStrDefault(section: string, key: string, default: string): (r: string)
      reads this
      ensures section + "/" + key !in entries ==> r == default
      ensures section + "/" + key in entries ==> r == entries[section + "/" + key]
    {
      match ConfStr(section, key)
      case None => default
      case Some(s) => s
    }
  }
}
