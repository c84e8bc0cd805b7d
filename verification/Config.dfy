// The tracker's configuration file: written by the settings page (prof/track/settings:46-58) and
// read back by the manager (trxmgr.c:17-124, trxcommon.c:11-28).
module Config {
  import opened Options

  const MAXAPPS := 100
  const MAXCNAME := 100
  const LINEMAX := 198  // what fgets reads into buf[200] when told sizeof buf - 1

  datatype Flag = Enable | Poison | Validate | Track

  datatype App = App(name: string, flags: set<Flag>)

  // ---------------------------------------------------------------- the printer

  datatype Program = Program(name: string, poison: bool, track: bool, validate: bool)

  function OnOff(b: bool): string {
    if b then "on" else "off"
  }

  /** The four words of a line. */
  datatype Keyword = EnableKey | PoisonKey | TrackKey | ValidateKey

  function Text(k: Keyword): string {
    match k
    case EnableKey => "enable"
    case PoisonKey => "poison"
    case TrackKey => "track"
    case ValidateKey => "validate"
  }

  datatype Setting = Setting(key: Keyword, on: bool)

  function Word(s: Setting): string {
    Text(s.key) + ['='] + OnOff(s.on)
  }

  function Words(ss: seq<Setting>): seq<string> {
    seq(|ss|, i requires 0 <= i < |ss| => Word(ss[i]))
  }

  function Settings(p: Program): (ss: seq<Setting>)
    ensures |ss| == 4
  {
    [Setting(EnableKey, true), Setting(PoisonKey, p.poison), Setting(TrackKey, p.track), Setting(ValidateKey, p.validate)]
  }

  function Join(ws: seq<string>): string
    requires ws != []
  {
    if |ws| == 1 then ws[0] + ['\n'] else ws[0] + [','] + Join(ws[1..])
  }

  function PrintProgram(p: Program): string {
    p.name + [' '] + Join(Words(Settings(p)))
  }

  /** The line as the file shows it. */
  lemma PrintedLine(p: Program)
    ensures PrintProgram(p)
            == p.name + " " + (("enable=on" + ",") + (("poison=" + OnOff(p.poison)) + "," + (("track=" + OnOff(p.track)) + ","
               + (("validate=" + OnOff(p.validate)) + "\n"))))
  {
    var ws := Words(Settings(p));
    JoinLast(ws);
    assert ws[0] == "enable=on" && ws[1] == "poison=" + OnOff(p.poison);
    assert ws[2] == "track=" + OnOff(p.track) && ws[3] == "validate=" + OnOff(p.validate);
  }

  lemma {:induction false} JoinLast(ws: seq<string>)
    requires |ws| == 4
    ensures Join(ws) == ws[0] + [','] + (ws[1] + [','] + (ws[2] + [','] + (ws[3] + ['\n'])))
  {
    assert ws[1..][1..] == ws[2..] && ws[2..][1..] == ws[3..];
    assert Join(ws[3..]) == ws[3] + ['\n'];
    assert Join(ws[2..]) == ws[2] + [','] + Join(ws[3..]);
    assert Join(ws[1..]) == ws[1] + [','] + Join(ws[2..]);
  }

  function SaveCfg(ps: seq<Program>): string {
    if ps == [] then "" else PrintProgram(ps[0]) + SaveCfg(ps[1..])
  }

  // ---------------------------------------------------------------- the reader

  /** fgets: up to and including a newline, at most LINEMAX characters. */
  function LineLength(text: string, max: nat): (n: nat)
    ensures n <= |text| && n <= max && (text != [] && max > 0 ==> n > 0)
  {
    if text == [] || max == 0 then 0
    else if text[0] == '\n' then 1
    else 1 + LineLength(text[1..], max - 1)
  }

  const NAME_DELIMS := " \t\n\r"
  const FLAG_DELIMS := " \t,\r\n"

  function Skip(s: string, delims: string): (n: nat)
    ensures n <= |s|
    ensures n < |s| ==> s[n] !in delims
  {
    if s == [] || s[0] !in delims then 0 else 1 + Skip(s[1..], delims)
  }

  function Run(s: string, delims: string): (n: nat)
    ensures n <= |s|
    ensures s != [] && s[0] !in delims ==> n > 0
  {
    if s == [] || s[0] in delims then 0 else 1 + Run(s[1..], delims)
  }

  /** strtok: the next token, and what is left after the delimiter that ended it. */
  function Token(s: string, delims: string): (r: Option<(string, string)>)
    ensures r.Some? ==> |r.value.1| < |s| && r.value.0 != []
  {
    var t := s[Skip(s, delims)..];
    if t == [] then None
    else
      var n := Run(t, delims);
      Some((t[..n], if n < |t| then t[n + 1..] else []))
  }

  function ToLower(c: char): char {
    if 'A' <= c <= 'Z' then c - 'A' + 'a' else c
  }

  /** strcasecmp(a, b) == 0 */
  predicate SameWord(a: string, b: string) {
    |a| == |b| && forall i :: 0 <= i < |a| ==> ToLower(a[i]) == ToLower(b[i])
  }

  /** flgmap: "validate" selects FLAG_TRACK and "track" selects FLAG_VALIDATE. */
  function FlagMask(word: string): Option<Flag> {
    if SameWord("enable", word) then Some(Enable)
    else if SameWord("poison", word) then Some(Poison)
    else if SameWord("validate", word) then Some(Track)
    else if SameWord("track", word) then Some(Validate)
    else None
  }

  function IndexOf(s: string, c: char): (n: nat)
    ensures n <= |s| && (n < |s| ==> s[n] == c)
  {
    if s == [] || s[0] == c then 0 else 1 + IndexOf(s[1..], c)
  }

  /** One word of a line; None for the errors that are counted. */
  function ApplyWord(flags: set<Flag>, word: string): Option<set<Flag>> {
    var eq := IndexOf(word, '=');
    if eq == |word| then None
    else match FlagMask(word[..eq])
      case None => None
      case Some(mask) =>
        if SameWord("on", word[eq + 1..]) then Some(flags + {mask})
        else if SameWord("off", word[eq + 1..]) then Some(flags - {mask})
        else None
  }

  /** The flags and the number of errors in the rest of a line. */
  function ParseFlags(s: string, flags: set<Flag>): (set<Flag>, nat)
    decreases |s|
  {
    match Token(s, FLAG_DELIMS)
    case None => (flags, 0)
    case Some((word, rest)) =>
      match ApplyWord(flags, word)
      case None => var (f, e) := ParseFlags(rest, flags); (f, e + 1)
      case Some(f) => ParseFlags(rest, f)
  }

  /** What readConf has gathered so far. */
  datatype Reading = Reading(apps: seq<App>, defaults: Option<set<Flag>>, errors: nat)

  function ReadLine(r: Reading, line: string): Reading {
    match Token(line, NAME_DELIMS)
    case None => r
    case Some((name, rest)) =>
      if name[0] == '#' then r
      else if |name| >= MAXCNAME then r.(errors := r.errors + 1)
      else
        var (flags, errors) := ParseFlags(rest, {});
        var r1 := r.(errors := r.errors + errors);
        if name == "*" then r1.(defaults := Some(flags)) else r1.(apps := r1.apps + [App(name, flags)])
  }

  function ReadLines(r: Reading, text: string): Reading
    decreases |text|
  {
    if text == [] || |r.apps| >= MAXAPPS then r
    else
      var n := LineLength(text, LINEMAX);
      ReadLines(ReadLine(r, text[..n]), text[n..])
  }

  /** getAppConfig: the first entry with that name, else the defaults, else nothing. */
  function Lookup(apps: seq<App>, defaults: Option<set<Flag>>, name: string): set<Flag> {
    if apps == [] then (if defaults.Some? then defaults.value else {})
    else if apps[0].name == name then apps[0].flags
    else Lookup(apps[1..], defaults, name)
  }

  // ---------------------------------------------------------------- what the parts of the reader find

  ghost predicate AllIn(s: string, delims: string) {
    forall i :: 0 <= i < |s| ==> s[i] in delims
  }

  ghost predicate NoneIn(s: string, delims: string) {
    forall i :: 0 <= i < |s| ==> s[i] !in delims
  }

  lemma {:induction false} SkipIs(s: string, delims: string)
    ensures AllIn(s[..Skip(s, delims)], delims)
  {
    if s != [] && s[0] in delims { SkipIs(s[1..], delims); }
  }

  lemma {:induction false} RunStops(s: string, delims: string)
    ensures NoneIn(s[..Run(s, delims)], delims)
    ensures Run(s, delims) < |s| ==> s[Run(s, delims)] in delims
  {
    if s != [] && s[0] !in delims { RunStops(s[1..], delims); }
  }

  /** strtok finds the first run of other characters, and goes on behind the delimiter that ends it. */
  lemma TokenExactly(s: string, delims: string)
    ensures Token(s, delims) == None <==> AllIn(s, delims)
    ensures Token(s, delims).Some? ==>
              exists a: nat, b: nat :: a < b <= |s| && AllIn(s[..a], delims) && NoneIn(s[a..b], delims)
                && (b < |s| ==> s[b] in delims)
                && Token(s, delims) == Some((s[a..b], if b < |s| then s[b + 1..] else []))
  {
    var a := Skip(s, delims);
    SkipIs(s, delims);
    if a < |s| {
      var t := s[a..];
      var n := Run(t, delims);
      RunStops(t, delims);
      assert t[..n] == s[a..a + n];
      assert a + n < |s| ==> t[n + 1..] == s[a + n + 1..];
    } else {
      assert s[..a] == s;
    }
  }

  /** fgets delivers the text up to its first newline, or as much of it as the buffer holds. */
  lemma {:induction false} LineLengthExactly(text: string, max: nat)
    ensures var n := LineLength(text, max);
            && (forall i :: 0 <= i < n - 1 ==> text[i] != '\n')
            && (n < |text| && n < max ==> n > 0 && text[n - 1] == '\n')
  {
    if text != [] && max > 0 && text[0] != '\n' { LineLengthExactly(text[1..], max - 1); }
  }

  /** What a word does: without `=` nothing, and it is an error; otherwise by what is before and after its
      first `=`, in any case. */
  lemma WordExactly(flags: set<Flag>, word: string)
    ensures (forall i :: 0 <= i < |word| ==> word[i] != '=') ==> ApplyWord(flags, word) == None
    ensures forall k :: 0 <= k < |word| && word[k] == '=' && (forall i :: 0 <= i < k ==> word[i] != '=') ==>
              ApplyWord(flags, word)
              == if SameWord("on", word[k + 1..]) then Changed(flags, word[..k], true)
                 else if SameWord("off", word[k + 1..]) then Changed(flags, word[..k], false)
                 else None
  {
    forall k | 0 <= k < |word| && word[k] == '=' && forall i :: 0 <= i < k ==> word[i] != '='
      ensures ApplyWord(flags, word)
              == if SameWord("on", word[k + 1..]) then Changed(flags, word[..k], true)
                 else if SameWord("off", word[k + 1..]) then Changed(flags, word[..k], false)
                 else None
    {
      IndexOfIs(word[..k], '=', word[k + 1..]);
      assert word[..k] + ['='] + word[k + 1..] == word;
    }
  }

  /** The flags with that of a key set or cleared; each key by its own name, but "validate" and "track"
      crosswise. */
  function Changed(flags: set<Flag>, key: string, on: bool): Option<set<Flag>> {
    if SameWord("enable", key) then Some(if on then flags + {Enable} else flags - {Enable})
    else if SameWord("poison", key) then Some(if on then flags + {Poison} else flags - {Poison})
    else if SameWord("validate", key) then Some(if on then flags + {Track} else flags - {Track})
    else if SameWord("track", key) then Some(if on then flags + {Validate} else flags - {Validate})
    else None
  }

  /** The flags after a word, which an error leaves as they are. */
  function After(flags: set<Flag>, w: string): set<Flag> {
    var f := ApplyWord(flags, w);
    if f == None then flags else f.value
  }

  function Wrong(w: string): nat {
    if ApplyWord({}, w) == None then 1 else 0
  }

  /** The words of a line are looked at one after the other; one that is in error is counted and skipped. */
  lemma {:induction false} OneWord(w: string, d: char, rest: string, flags: set<Flag>)
    requires Clean(w) && d in FLAG_DELIMS
    ensures ParseFlags(w + [d] + rest, flags) == AddErrors(ParseFlags(rest, After(flags, w)), Wrong(w))
  {
    TokenIs(w, d, rest, FLAG_DELIMS);
    SameErrors(flags, w);
  }

  lemma SameErrors(flags: set<Flag>, w: string)
    ensures ApplyWord(flags, w) == None <==> Wrong(w) == 1
  {
  }

  lemma {:induction false} NothingMore(flags: set<Flag>)
    ensures ParseFlags([], flags) == (flags, 0)
  {
  }

  /** Case does not matter. */
  lemma AnyCase()
    ensures SameWord("on", "ON") && SameWord("on", "On") && !SameWord("on", "off")
    ensures SameWord("enable", "ENABLE") && SameWord("track", "Track") && !SameWord("track", "tracks")
  {
  }

  // ---------------------------------------------------------------- reading back what was printed

  /** The names the file format can carry. */
  predicate Writable(name: string) {
    && 0 < |name| < MAXCNAME && name[0] != '#' && name != "*"
    && forall i :: 0 <= i < |name| ==> name[i] !in NAME_DELIMS
  }

  predicate Clean(word: string) {
    word != [] && forall i :: 0 <= i < |word| ==> word[i] !in FLAG_DELIMS
  }

  /** The flags a program ends up with. */
  function FlagsOf(p: Program): set<Flag> {
    {Enable} + (if p.poison then {Poison} else {}) + (if p.validate then {Track} else {}) + (if p.track then {Validate} else {})
  }

  lemma {:induction false} RunIs(t: string, d: char, rest: string, delims: string)
    requires d in delims && forall i :: 0 <= i < |t| ==> t[i] !in delims
    ensures Run(t + [d] + rest, delims) == |t|
  {
    if t != [] {
      RunIs(t[1..], d, rest, delims);
      assert (t + [d] + rest)[1..] == t[1..] + [d] + rest;
    }
  }

  lemma TokenIs(t: string, d: char, rest: string, delims: string)
    requires t != [] && d in delims && forall i :: 0 <= i < |t| ==> t[i] !in delims
    ensures Token(t + [d] + rest, delims) == Some((t, rest))
  {
    var s := t + [d] + rest;
    assert s[0] == t[0];
    assert s[0..] == s;
    RunIs(t, d, rest, delims);
    assert s[..|t|] == t && s[|t| + 1..] == rest;
  }

  lemma {:induction false} IndexOfIs(key: string, c: char, rest: string)
    requires forall i :: 0 <= i < |key| ==> key[i] != c
    ensures IndexOf(key + [c] + rest, c) == |key|
  {
    if key != [] {
      IndexOfIs(key[1..], c, rest);
      assert (key + [c] + rest)[1..] == key[1..] + [c] + rest;
    }
  }

  /** The flag each word selects. */
  function Gives(k: Keyword): Flag {
    match k
    case EnableKey => Enable
    case PoisonKey => Poison
    case TrackKey => Validate
    case ValidateKey => Track
  }

  lemma KeyMask(k: Keyword)
    ensures FlagMask(Text(k)) == Some(Gives(k))
  {
    assert ToLower("enable"[0]) != ToLower("poison"[0]);
  }

  lemma TextIsClean(k: Keyword)
    ensures Clean(Text(k)) && |Text(k)| <= 8 && forall i :: 0 <= i < |Text(k)| ==> Text(k)[i] != '='
  {
  }

  lemma WordIsClean(s: Setting)
    ensures Clean(Word(s)) && |Word(s)| <= 12
  {
    TextIsClean(s.key);
    assert Clean(OnOff(s.on));
  }

  function Set(flags: set<Flag>, s: Setting): set<Flag> {
    if s.on then flags + {Gives(s.key)} else flags - {Gives(s.key)}
  }

  lemma ApplyIs(flags: set<Flag>, s: Setting)
    ensures ApplyWord(flags, Word(s)) == Some(Set(flags, s))
  {
    var key := Text(s.key);
    TextIsClean(s.key);
    KeyMask(s.key);
    IndexOfIs(key, '=', OnOff(s.on));
    assert Word(s)[..|key|] == key && Word(s)[|key| + 1..] == OnOff(s.on);
  }

  function SetAll(flags: set<Flag>, ss: seq<Setting>): set<Flag>
    decreases |ss|
  {
    if ss == [] then flags else SetAll(Set(flags, ss[0]), ss[1..])
  }

  lemma {:induction false} ParseStep(s: Setting, d: char, rest: string, flags: set<Flag>)
    requires d in FLAG_DELIMS
    ensures ParseFlags(Word(s) + [d] + rest, flags) == ParseFlags(rest, Set(flags, s))
  {
    WordIsClean(s);
    ApplyIs(flags, s);
    TokenIs(Word(s), d, rest, FLAG_DELIMS);
  }

  lemma {:induction false} ParseSettings(ss: seq<Setting>, flags: set<Flag>)
    requires ss != []
    ensures ParseFlags(Join(Words(ss)), flags) == (SetAll(flags, ss), 0)
    decreases |ss|
  {
    if |ss| == 1 {
      ParseStep(ss[0], '\n', [], flags);
      assert Word(ss[0]) + ['\n'] + [] == Word(ss[0]) + ['\n'];
    } else {
      ParseSettings(ss[1..], Set(flags, ss[0]));
      assert Words(ss)[1..] == Words(ss[1..]);
      ParseStep(ss[0], ',', Join(Words(ss[1..])), flags);
    }
  }

  lemma SettingsGive(p: Program)
    ensures SetAll({}, Settings(p)) == FlagsOf(p)
  {
    var ss := Settings(p);
    SetOne({}, ss);
    SetOne(Set({}, ss[0]), ss[1..]);
    SetOne(Set(Set({}, ss[0]), ss[1]), ss[2..]);
    SetOne(Set(Set(Set({}, ss[0]), ss[1]), ss[2]), ss[3..]);
  }

  lemma {:induction false} SetOne(flags: set<Flag>, ss: seq<Setting>)
    requires ss != []
    ensures SetAll(flags, ss) == SetAll(Set(flags, ss[0]), ss[1..])
  {
  }

  lemma ParsePrinted(p: Program)
    ensures ParseFlags(Join(Words(Settings(p))), {}) == (FlagsOf(p), 0)
  {
    ParseSettings(Settings(p), {});
    SettingsGive(p);
  }

  lemma {:induction false} ReadLineIs(r: Reading, line: string, name: string, words: string, flags: set<Flag>)
    requires Writable(name) && Token(line, NAME_DELIMS) == Some((name, words)) && ParseFlags(words, {}) == (flags, 0)
    ensures ReadLine(r, line) == r.(apps := r.apps + [App(name, flags)])
  {
  }

  lemma ReadBack(r: Reading, p: Program)
    requires Writable(p.name)
    ensures ReadLine(r, PrintProgram(p)) == r.(apps := r.apps + [App(p.name, FlagsOf(p))])
  {
    var words := Join(Words(Settings(p)));
    TokenIs(p.name, ' ', words, NAME_DELIMS);
    ParsePrinted(p);
    ReadLineIs(r, PrintProgram(p), p.name, words, FlagsOf(p));
  }

  lemma {:induction false} LineLengthIs(line: string, rest: string, max: nat)
    requires line != [] && line[|line| - 1] == '\n' && |line| <= max
    requires forall i :: 0 <= i < |line| - 1 ==> line[i] != '\n'
    ensures LineLength(line + rest, max) == |line|
  {
    if |line| > 1 {
      LineLengthIs(line[1..], rest, max - 1);
      assert (line + rest)[1..] == line[1..] + rest;
    }
  }

  lemma {:induction false} JoinShape(ws: seq<string>, max: nat)
    requires ws != [] && forall k :: 0 <= k < |ws| ==> Clean(ws[k]) && |ws[k]| < max
    ensures 0 < |Join(ws)| <= max * |ws| && Join(ws)[|Join(ws)| - 1] == '\n'
    ensures forall i :: 0 <= i < |Join(ws)| - 1 ==> Join(ws)[i] != '\n'
  {
    if |ws| > 1 {
      JoinShape(ws[1..], max);
      assert max * |ws| == max * |ws[1..]| + max;
    }
  }

  lemma {:induction false} ProgramIsOneLine(p: Program, rest: string)
    requires Writable(p.name)
    ensures LineLength(PrintProgram(p) + rest, LINEMAX) == |PrintProgram(p)| > 0
  {
    var ss := Settings(p);
    forall k | 0 <= k < |ss|
      ensures Clean(Words(ss)[k]) && |Words(ss)[k]| < 13
    {
      WordIsClean(ss[k]);
    }
    JoinShape(Words(ss), 13);
    OneLine(p.name, Join(Words(ss)), rest);
  }

  lemma {:induction false} OneLine(name: string, s: string, rest: string)
    requires Writable(name) && 0 < |s| <= 52 && s[|s| - 1] == '\n' && forall i :: 0 <= i < |s| - 1 ==> s[i] != '\n'
    ensures LineLength(name + [' '] + s + rest, LINEMAX) == |name + [' '] + s|
  {
    var line := name + [' '] + s;
    forall i | 0 <= i < |line| - 1
      ensures line[i] != '\n'
    {
      if i > |name| { assert line[i] == s[i - |name| - 1]; }
    }
    LineLengthIs(line, rest, LINEMAX);
  }

  function AppsOf(ps: seq<Program>): seq<App> {
    seq(|ps|, i requires 0 <= i < |ps| => App(ps[i].name, FlagsOf(ps[i])))
  }

  function Take(ps: seq<Program>, n: nat): seq<Program> {
    if |ps| <= n then ps else ps[..n]
  }

  lemma {:induction false} ReadsOneProgram(ps: seq<Program>, r: Reading)
    requires ps != [] && Writable(ps[0].name) && |r.apps| < MAXAPPS
    ensures ReadLines(r, SaveCfg(ps)) == ReadLines(r.(apps := r.apps + [App(ps[0].name, FlagsOf(ps[0]))]), SaveCfg(ps[1..]))
  {
    var line, rest := PrintProgram(ps[0]), SaveCfg(ps[1..]);
    ProgramIsOneLine(ps[0], rest);
    ReadBack(r, ps[0]);
    assert (line + rest)[..|line|] == line && (line + rest)[|line|..] == rest;
  }

  lemma TakeFirst(apps: seq<App>, ps: seq<Program>, k: nat)
    requires ps != [] && k > 0
    ensures apps + [App(ps[0].name, FlagsOf(ps[0]))] + AppsOf(Take(ps[1..], k - 1)) == apps + AppsOf(Take(ps, k))
  {
  }

  /** Reading what saveCfg printed gives the programs back, up to the hundredth, without an error and
      without changing the defaults. */
  lemma {:induction false} ReadsWhatWasSaved(ps: seq<Program>, r: Reading)
    requires forall i :: 0 <= i < |ps| ==> Writable(ps[i].name)
    requires |r.apps| <= MAXAPPS
    ensures ReadLines(r, SaveCfg(ps)) == r.(apps := r.apps + AppsOf(Take(ps, MAXAPPS - |r.apps|)))
    decreases |ps|
  {
    if ps == [] || |r.apps| == MAXAPPS {
      assert AppsOf(Take(ps, MAXAPPS - |r.apps|)) == [];
      assert r.apps + [] == r.apps;
    } else {
      var r1 := r.(apps := r.apps + [App(ps[0].name, FlagsOf(ps[0]))]);
      ReadsOneProgram(ps, r);
      ReadsWhatWasSaved(ps[1..], r1);
      TakeFirst(r.apps, ps, MAXAPPS - |r.apps|);
    }
  }

  lemma {:induction false} LookupFinds(apps: seq<App>, defaults: Option<set<Flag>>, i: nat)
    requires i < |apps| && forall j :: 0 <= j < i ==> apps[j].name != apps[i].name
    ensures Lookup(apps, defaults, apps[i].name) == apps[i].flags
  {
    if i > 0 { LookupFinds(apps[1..], defaults, i - 1); }
  }

  lemma {:induction false} LookupMisses(apps: seq<App>, defaults: Option<set<Flag>>, name: string)
    requires forall i :: 0 <= i < |apps| ==> apps[i].name != name
    ensures Lookup(apps, defaults, name) == if defaults.Some? then defaults.value else {}
  {
    if apps != [] { LookupMisses(apps[1..], defaults, name); }
  }

  /** What the manager, starting without entries and defaults, makes of a file that was saved. */
  function Reread(ps: seq<Program>): Reading {
    ReadLines(Reading([], None, 0), SaveCfg(ps))
  }

  lemma {:induction false} SavedReading(ps: seq<Program>)
    requires forall i :: 0 <= i < |ps| ==> Writable(ps[i].name)
    ensures Reread(ps) == Reading(AppsOf(Take(ps, MAXAPPS)), None, 0)
  {
    ReadsWhatWasSaved(ps, Reading([], None, 0));
    assert [] + AppsOf(Take(ps, MAXAPPS)) == AppsOf(Take(ps, MAXAPPS));
  }

  /** Configuration round trip: the file is read without an error, and each of the first hundred
      distinct names is given the flags flgmap assigns to its words. */
  lemma {:induction false} ConfigurationRoundTrip(ps: seq<Program>)
    requires forall j :: 0 <= j < |ps| ==> Writable(ps[j].name)
    requires forall j, k :: 0 <= j < k < |ps| ==> ps[j].name != ps[k].name
    ensures Reread(ps).errors == 0
    ensures forall i :: 0 <= i < |ps| && i < MAXAPPS ==>
              Lookup(Reread(ps).apps, Reread(ps).defaults, ps[i].name) == FlagsOf(ps[i])
  {
    SavedReading(ps);
    forall i | 0 <= i < |ps| && i < MAXAPPS
      ensures Lookup(Reread(ps).apps, Reread(ps).defaults, ps[i].name) == FlagsOf(ps[i])
    {
      SavedIsFound(ps, i);
    }
  }

  /** A name that was not written gets no flag at all, and neither does one beyond the hundredth. */
  lemma {:induction false} UnlistedNameIsOff(ps: seq<Program>, name: string)
    requires forall j :: 0 <= j < |ps| ==> Writable(ps[j].name)
    requires forall j :: 0 <= j < |ps| && j < MAXAPPS ==> ps[j].name != name
    ensures Lookup(Reread(ps).apps, Reread(ps).defaults, name) == {}
  {
    SavedReading(ps);
    LookupMisses(Reread(ps).apps, None, name);
  }

  lemma SavedIsFound(ps: seq<Program>, i: nat)
    requires i < |ps| && i < MAXAPPS && forall j, k :: 0 <= j < k < |ps| ==> ps[j].name != ps[k].name
    ensures Lookup(AppsOf(Take(ps, MAXAPPS)), None, ps[i].name) == FlagsOf(ps[i])
  {
    var apps := AppsOf(Take(ps, MAXAPPS));
    assert apps[i] == App(ps[i].name, FlagsOf(ps[i]));
    LookupFinds(apps, None, i);
  }

  // ---------------------------------------------------------------- what a reading does, from its text

  /** The pieces that fgets delivers. */
  function Lines(text: string): seq<string>
    decreases |text|
  {
    if text == [] then []
    else
      var n := LineLength(text, LINEMAX);
      [text[..n]] + Lines(text[n..])
  }

  /** The name on a line, if it has one that is taken up. */
  function NameOn(line: string): Option<string> {
    match Token(line, NAME_DELIMS)
    case None => None
    case Some((name, _)) => if name[0] == '#' || |name| >= MAXCNAME then None else Some(name)
  }

  predicate IsDefault(line: string) {
    NameOn(line) == Some("*")
  }

  predicate IsEntry(line: string) {
    NameOn(line).Some? && !IsDefault(line)
  }

  function FlagsOn(line: string): set<Flag> {
    match Token(line, NAME_DELIMS)
    case None => {}
    case Some((_, words)) => ParseFlags(words, {}).0
  }

  /** The errors counted on a line: a name that is too long, or words that are not understood. */
  function ErrorsOn(line: string): nat {
    match Token(line, NAME_DELIMS)
    case None => 0
    case Some((name, words)) =>
      if name[0] == '#' then 0 else if |name| >= MAXCNAME then 1 else ParseFlags(words, {}).1
  }

  /** The lines looked at when the table has room for `room` more entries. */
  function Considered(lines: seq<string>, room: nat): seq<string> {
    if lines == [] || room == 0 then []
    else [lines[0]] + Considered(lines[1..], if IsEntry(lines[0]) then room - 1 else room)
  }

  /** The flags of the last default line. */
  function LastDefault(lines: seq<string>): Option<set<Flag>> {
    if lines == [] then None
    else
      var later := LastDefault(lines[1..]);
      if later.Some? then later else if IsDefault(lines[0]) then Some(FlagsOn(lines[0])) else None
  }

  /** The entries of a table, in the order of their lines. */
  function Entries(lines: seq<string>): seq<App> {
    if lines == [] then []
    else (if IsEntry(lines[0]) then [App(NameOn(lines[0]).value, FlagsOn(lines[0]))] else []) + Entries(lines[1..])
  }

  function Errors(lines: seq<string>): nat {
    if lines == [] then 0 else ErrorsOn(lines[0]) + Errors(lines[1..])
  }

  lemma LineEffect(r: Reading, line: string)
    ensures ReadLine(r, line).errors == r.errors + ErrorsOn(line)
    ensures ReadLine(r, line).defaults == if IsDefault(line) then Some(FlagsOn(line)) else r.defaults
    ensures ReadLine(r, line).apps == r.apps + if IsEntry(line) then [App(NameOn(line).value, FlagsOn(line))] else []
  {
  }

  /** Errors and defaults after a reading, from the lines alone. */
  lemma {:induction false} ReadingEffect(r: Reading, text: string)
    requires |r.apps| <= MAXAPPS
    ensures var part := Considered(Lines(text), MAXAPPS - |r.apps|);
            && ReadLines(r, text).errors == r.errors + Errors(part)
            && ReadLines(r, text).defaults == if LastDefault(part).Some? then LastDefault(part) else r.defaults
    decreases |text|
  {
    if text != [] && |r.apps| < MAXAPPS {
      var n := LineLength(text, LINEMAX);
      LineEffect(r, text[..n]);
      ReadingEffect(ReadLine(r, text[..n]), text[n..]);
      LinesFirst(text[..n], Lines(text[n..]), MAXAPPS - |r.apps|);
    }
  }

  /** And the table. */
  lemma {:induction false} ReadingEntries(r: Reading, text: string)
    requires |r.apps| <= MAXAPPS
    ensures ReadLines(r, text).apps == r.apps + Entries(Considered(Lines(text), MAXAPPS - |r.apps|))
    decreases |text|
  {
    if text != [] && |r.apps| < MAXAPPS {
      var n := LineLength(text, LINEMAX);
      var line, rest, room := text[..n], text[n..], MAXAPPS - |r.apps|;
      LineEffect(r, line);
      var r1, room1 := ReadLine(r, line), if IsEntry(line) then room - 1 else room;
      ReadingEntries(r1, rest);
      FirstEntry(line, Lines(rest), room);
      assert Lines(text) == [line] + Lines(rest);
      var first := if IsEntry(line) then [App(NameOn(line).value, FlagsOn(line))] else [];
      Reassociate(r.apps, first, Entries(Considered(Lines(rest), room1)));
    } else {
      assert Considered(Lines(text), MAXAPPS - |r.apps|) == [];
    }
  }

  lemma Reassociate(a: seq<App>, b: seq<App>, c: seq<App>)
    ensures (a + b) + c == a + (b + c)
  {
  }

  lemma {:induction false} FirstEntry(line: string, rest: seq<string>, room: nat)
    requires room > 0
    ensures Entries(Considered([line] + rest, room))
            == (if IsEntry(line) then [App(NameOn(line).value, FlagsOn(line))] else [])
               + Entries(Considered(rest, if IsEntry(line) then room - 1 else room))
  {
    var later := Considered(rest, if IsEntry(line) then room - 1 else room);
    assert ([line] + rest)[1..] == rest;
    assert Considered([line] + rest, room) == [line] + later;
    assert ([line] + later)[1..] == later;
  }

  lemma {:induction false} LinesFirst(line: string, rest: seq<string>, room: nat)
    requires room > 0
    ensures var later := Considered(rest, if IsEntry(line) then room - 1 else room);
            && Errors(Considered([line] + rest, room)) == ErrorsOn(line) + Errors(later)
            && LastDefault(Considered([line] + rest, room))
               == if LastDefault(later).Some? then LastDefault(later)
                  else if IsDefault(line) then Some(FlagsOn(line)) else None
  {
    var later := Considered(rest, if IsEntry(line) then room - 1 else room);
    assert ([line] + rest)[1..] == rest;
    assert Considered([line] + rest, room) == [line] + later;
    assert ([line] + later)[1..] == later;
  }

  /** A file is rejected exactly when a line before the table is full holds an error.  Rejected or not,
      it leaves the defaults alone if and only if those lines hold no default line, or the last of them
      says what the defaults were. */
  lemma {:induction false} DefaultsExactly(text: string, was: Option<set<Flag>>)
    ensures var part := Considered(Lines(text), MAXAPPS);
            var r := ReadLines(Reading([], was, 0), text);
            && (r.errors > 0 <==> Errors(part) > 0) && r.apps == Entries(part)
            && (r.defaults == was <==> LastDefault(part) == None || LastDefault(part) == was)
  {
    ReadingEffect(Reading([], was, 0), text);
    ReadingEntries(Reading([], was, 0), text);
  }

  function DefaultLine(ss: seq<Setting>): string
    requires ss != []
  {
    "*" + [' '] + Join(Words(ss))
  }

  const BAD_LINE := "x y\n"  // a word without '='

  /** A default line followed by a line with an error is rejected, and still sets the defaults. */
  lemma {:induction false} RejectedYetChanged(was: Option<set<Flag>>, s: Setting)
    ensures var r := ReadLines(Reading([], was, 0), DefaultLine([s]) + BAD_LINE);
            r.errors == 1 && r.defaults == Some(Set({}, s))
  {
    var start := Reading([], was, 0);
    DefaultLineEffect(start, s);
    DefaultLineIsLine(s);
    var r := start.(defaults := Some(Set({}, s)));
    FirstLine(start, DefaultLine([s]), BAD_LINE);
    BadLineEffect(r);
    FirstLine(r, BAD_LINE, []);
    assert BAD_LINE + [] == BAD_LINE;
  }

  /** For one: "* enable=on" and "x y" on a line each. */
  lemma {:induction false} RejectedText(was: Option<set<Flag>>)
    ensures var r := ReadLines(Reading([], was, 0), "* enable=on\nx y\n");
            r.errors == 1 && r.defaults == Some({Enable})
  {
    var s := Setting(EnableKey, true);
    DefaultLineText();
    RejectedYetChanged(was, s);
    assert Set({}, s) == {Enable};
    assert DefaultLine([s]) + BAD_LINE == "* enable=on\nx y\n";
  }

  lemma DefaultLineText()
    ensures DefaultLine([Setting(EnableKey, true)]) == "* enable=on\n"
  {
    var ss := [Setting(EnableKey, true)];
    JoinOne(ss);
  }

  lemma JoinOne(ss: seq<Setting>)
    requires |ss| == 1
    ensures Join(Words(ss)) == Word(ss[0]) + ['\n']
  {
  }

  lemma {:induction false} DefaultLineEffect(r: Reading, s: Setting)
    ensures ReadLine(r, DefaultLine([s])) == r.(defaults := Some(Set({}, s)))
  {
    var words := Join(Words([s]));
    ParseSettings([s], {});
    SetOne({}, [s]);
    TokenIs("*", ' ', words, NAME_DELIMS);
  }

  lemma {:induction false} DefaultLineIsLine(s: Setting)
    ensures IsLine(DefaultLine([s]))
  {
    WordIsClean(s);
    JoinOne([s]);
    assert DefaultLine([s]) == "*" + [' '] + Word(s) + ['\n'];
  }

  lemma BadLineEffect(r: Reading)
    ensures ReadLine(r, BAD_LINE).errors == r.errors + 1 && ReadLine(r, BAD_LINE).defaults == r.defaults
    ensures IsLine(BAD_LINE)
  {
    TokenIs("x", ' ', "y\n", NAME_DELIMS);
    assert "x" + [' '] + "y\n" == BAD_LINE;
    BadWord();
  }

  lemma BadWord()
    ensures ParseFlags("y\n", {}) == ({}, 1)
  {
    TokenIs("y", '\n', "", FLAG_DELIMS);
    assert "y" + ['\n'] + "" == "y\n";
    assert "y"[0] != '=' && IndexOf("y"[1..], '=') == 0;
  }

  /** A line that fgets delivers in one piece. */
  predicate IsLine(line: string) {
    0 < |line| <= LINEMAX && line[|line| - 1] == '\n' && forall i :: 0 <= i < |line| - 1 ==> line[i] != '\n'
  }

  lemma {:induction false} FirstLine(r: Reading, line: string, rest: string)
    requires IsLine(line) && |r.apps| < MAXAPPS
    ensures ReadLines(r, line + rest) == ReadLines(ReadLine(r, line), rest)
  {
    LineLengthIs(line, rest, LINEMAX);
    assert (line + rest)[..|line|] == line && (line + rest)[|line|..] == rest;
  }

  function AddErrors(r: (set<Flag>, nat), n: nat): (set<Flag>, nat) {
    (r.0, r.1 + n)
  }

  // ---------------------------------------------------------------- the code

  /** The manager's application table. */
  class Manager {
    var apps: seq<App>
    var defaults: Option<set<Flag>>

    constructor ()
      ensures apps == [] && defaults == None
    {
      apps, defaults := [], None;
    }

    method ReadFlags(s: string) returns (flags: set<Flag>, errors: nat)
      ensures (flags, errors) == ParseFlags(s, {})
    {
      flags, errors := {}, 0;
      var rest := s;
      var tok := Token(rest, FLAG_DELIMS);
      while tok.Some?
        invariant tok == Token(rest, FLAG_DELIMS)
        invariant ParseFlags(s, {}) == AddErrors(ParseFlags(rest, flags), errors)
        decreases |rest|
      {
        var f := ApplyWord(flags, tok.value.0);
        if f == None { errors := errors + 1; } else { flags := f.value; }
        rest := tok.value.1;
        tok := Token(rest, FLAG_DELIMS);
      }
    }

    /** The body of readConf's loop. */
    method ReadOneLine(r: Reading, line: string) returns (r1: Reading)
      ensures r1 == ReadLine(r, line)
    {
      var tok := Token(line, NAME_DELIMS);
      if tok == None { return r; }
      var (name, words) := tok.value;
      if name[0] == '#' { return r; }
      if |name| >= MAXCNAME { return r.(errors := r.errors + 1); }
      var flags, wrong := ReadFlags(words);
      r1 := Record(r.(errors := r.errors + wrong), name, flags);
    }

    method Record(r: Reading, name: string, flags: set<Flag>) returns (r1: Reading)
      ensures r1 == if name == "*" then r.(defaults := Some(flags)) else r.(apps := r.apps + [App(name, flags)])
    {
      if name == "*" {
        r1 := r.(defaults := Some(flags));
      } else {
        r1 := r.(apps := r.apps + [App(name, flags)]);
      }
    }

    /** readConf on the text of the file: on any error the table stays as it was, though not the
        default flags, which are set as soon as their line is met. */
    method ReadConf(text: string) returns (ok: bool)
      modifies this
      ensures var r := ReadLines(Reading([], old(defaults), 0), text);
              && (ok <==> r.errors == 0)
              && apps == (if ok then r.apps else old(apps))
              && defaults == r.defaults
      ensures var part := Considered(Lines(text), MAXAPPS);
              && (ok <==> Errors(part) == 0) && apps == (if ok then Entries(part) else old(apps))
              && (defaults == old(defaults) <==> LastDefault(part) == None || LastDefault(part) == old(defaults))
    {
      DefaultsExactly(text, defaults);
      var r, rest := Reading([], defaults, 0), text;
      while rest != [] && |r.apps| < MAXAPPS
        invariant apps == old(apps)
        invariant ReadLines(Reading([], old(defaults), 0), text) == ReadLines(r, rest)
        decreases |rest|
      {
        var n := LineLength(rest, LINEMAX);
        r := ReadOneLine(r, rest[..n]);
        defaults := r.defaults;
        rest := rest[n..];
      }
      defaults := r.defaults;
      ok := r.errors == 0;
      if ok { apps := r.apps; }
    }

    method GetAppConfig(name: string) returns (flags: set<Flag>)
      ensures flags == Lookup(apps, defaults, name)
    {
      var idx := 0;
      while idx < |apps|
        invariant idx <= |apps| && Lookup(apps[idx..], defaults, name) == Lookup(apps, defaults, name)
      {
        if apps[idx].name == name { return apps[idx].flags; }
        idx := idx + 1;
      }
      return if defaults.Some? then defaults.value else {};
    }
  }
}
