// A console session: key events applied to the editor and its history (trxmgrRl.c:344-575).
module Console {
  import opened Options
  import opened Zipper
  import E = LineEditor
  import H = History
  import S = Screen

  datatype Key =
    | UpHistory | DownHistory | CursorLeft | CursorRight | DeleteChar | Backspace
    | KillLine | KillWord | KillToBol | KillToEol | GotoBol | GotoEol | ClearScreen | Redraw
    | KillWordForward | WordBackward | WordForward | Char(c: char)

  predicate Recalls(k: Key) {
    k.UpHistory? || k.DownHistory?
  }

  /** The line a key leaves, if it leaves the history alone. */
  function Effect(k: Key, l: Line): Line
    requires !Recalls(k)
  {
    match k
    case CursorLeft => MovedLeft(l)
    case CursorRight => MovedRight(l)
    case DeleteChar => Deleted(l)
    case Backspace => Backspaced(l)
    case KillLine => Line([], [])
    case KillWord => WordKilled(l)
    case KillToBol => Line([], l.right)
    case KillToEol => Line(l.left, [])
    case GotoBol => MovedTo(l, 0)
    case GotoEol => MovedTo(l, |l.left| + |l.right|)
    case ClearScreen => l
    case Redraw => l
    case KillWordForward => WordForwardKilled(l)
    case WordBackward => MovedWordBack(l)
    case WordForward => MovedWordForward(l)
    case Char(c) => Typed(l, c)
  }

  /** What the keys that move by one position or to an end, or not at all, do to text and cursor. */
  ghost predicate Moved(k: Key, text: seq<char>, at: nat, l: Line)
    requires at <= |text|
  {
    && (k.CursorLeft? ==> Is(l, text, if at == 0 then 0 else at - 1))
    && (k.CursorRight? ==> Is(l, text, if at == |text| then at else at + 1))
    && (k.GotoBol? ==> Is(l, text, 0))
    && (k.GotoEol? ==> Is(l, text, |text|))
    && (k.ClearScreen? || k.Redraw? ==> Is(l, text, at))
  }

  /** What the keys that change the text, words apart, do. */
  ghost predicate Edited(k: Key, text: seq<char>, at: nat, l: Line)
    requires at <= |text|
  {
    && (k.DeleteChar? ==> Is(l, if at == |text| then text else text[..at] + text[at + 1..], at))
    && (k.Backspace? ==> if at == 0 then Is(l, text, 0) else Is(l, text[..at - 1] + text[at..], at - 1))
    && (k.KillLine? ==> Is(l, [], 0))
    && (k.KillToBol? ==> Is(l, text[at..], 0))
    && (k.KillToEol? ==> Is(l, text[..at], at))
    && (k.Char? ==> Is(l, text[..at] + [k.c] + text[at..], at + 1))
  }

  /** Motion to the end of the word ahead, and to the last word that starts before the cursor, beyond
      position 1. */
  ghost predicate MovedByWord(k: Key, text: seq<char>, at: nat, l: Line)
    requires at <= |text|
  {
    && (k.WordForward? ==> exists e: nat :: FirstWordEnd(text[at..], e) && Is(l, text, at + e))
    && (k.WordBackward? ==>
          || (exists m: nat :: m >= 2 && LastWordAt(text[..at], m) && Is(l, text, m))
          || ((forall m: nat :: m >= 2 ==> !LastWordAt(text[..at], m)) && Is(l, text, 0)))
  }

  /** Deletion from the last word that starts before the cursor; of everything before it if there is none,
      except a first character that is no part of a word.  And deletion from the cursor over the next word
      end and what separates it from the word behind, less one separator. */
  ghost predicate KilledByWord(k: Key, text: seq<char>, at: nat, l: Line)
    requires at <= |text|
  {
    && (k.KillWord? ==>
          || (at == 0 && Is(l, text, 0))
          || (exists m: nat :: m < at && LastWordAt(text[..at], m) && Is(l, text[..m] + text[at..], m))
          || (at > 0 && NoWordInside(text[..at]) && IsAlnum(text[0]) && Is(l, text[at..], 0))
          || (at > 0 && NoWordInside(text[..at]) && !IsAlnum(text[0]) && Is(l, text[..1] + text[at..], 1)))
    && (k.KillWordForward? ==> exists n: nat :: at + n <= |text| && KillsTo(text[at..], n) && Is(l, text[..at] + text[at + n..], at))
  }

  /** `n` is the position of the first alphanumeric from the first word end on, less one; or the end. */
  ghost predicate KillsTo(s: seq<char>, n: nat) {
    exists e: nat, j: nat :: FirstWordEnd(s, e) && NextAlnumAt(s, e, j) && n == if 0 < j < |s| then j - 1 else j
  }

  ghost predicate NextAlnumAt(s: seq<char>, e: nat, j: nat) {
    e <= j <= |s| && (j == |s| || IsAlnum(s[j])) && forall i :: e <= i < j ==> !IsAlnum(s[i])
  }

  lemma MoveMeans(k: Key, l: Line)
    requires !Recalls(k)
    ensures Moved(k, l.left + l.right, |l.left|, Effect(k, l))
  {
  }

  lemma EditMeans(k: Key, l: Line)
    requires !Recalls(k)
    ensures Edited(k, l.left + l.right, |l.left|, Effect(k, l))
  {
    var text, at := l.left + l.right, |l.left|;
    assert text[..at] == l.left && text[at..] == l.right;
    if k.DeleteChar? && l.right != [] { assert text[..at] + text[at + 1..] == l.left + l.right[1..]; }
    if k.Backspace? && l.left != [] { assert text[..at - 1] + text[at..] == l.left[..at - 1] + l.right; }
  }

  lemma WordMoveMeans(k: Key, l: Line)
    requires !Recalls(k)
    ensures MovedByWord(k, l.left + l.right, |l.left|, Effect(k, l))
  {
    var text, at := l.left + l.right, |l.left|;
    assert text[..at] == l.left && text[at..] == l.right;
    if k.WordForward? {
      WordEnd(l.right);
      assert Is(Effect(k, l), text, at + ForwardTarget(l.right));
    }
    if k.WordBackward? {
      LastWord(l.left);
      LastStartIsLast(l.left, at);
      assert Is(Effect(k, l), text, BackwardTarget(l.left));
    }
  }

  lemma WordKillMeans(l: Line)
    ensures KilledByWord(KillWord, l.left + l.right, |l.left|, WordKilled(l))
  {
    var text, at := l.left + l.right, |l.left|;
    assert text[..at] == l.left && text[at..] == l.right;
    if at > 0 {
      LastWord(l.left);
      LastStartIsLast(l.left, at);
      var n := KillTarget(l.left);
      assert text[..n] == l.left[..n];
      assert Is(WordKilled(l), text[..n] + text[at..], n);
      assert n == 0 ==> text[..n] + text[at..] == text[at..];
    }
  }

  lemma WordForwardKillMeans(l: Line)
    ensures KilledByWord(KillWordForward, l.left + l.right, |l.left|, WordForwardKilled(l))
  {
    var text, at, e := l.left + l.right, |l.left|, ForwardTarget(l.right);
    assert text[..at] == l.left && text[at..] == l.right;
    WordEnd(l.right);
    NextAlnumInRange(l.right, e);
    assert NextAlnumAt(l.right, e, NextAlnum(l.right, e));
    var n := KillForwardTarget(l.right);
    assert KillsTo(l.right, n);
    assert text[at + n..] == l.right[n..];
    assert Is(WordForwardKilled(l), text[..at] + text[at + n..], at);
  }

  /** What a key does to the line, in terms of text and cursor. */
  ghost predicate Keyed(k: Key, l: Line, l': Line) {
    var text, at := l.left + l.right, |l.left|;
    Moved(k, text, at, l') && Edited(k, text, at, l') && MovedByWord(k, text, at, l') && KilledByWord(k, text, at, l')
  }

  lemma KeyMeans(k: Key, l: Line)
    requires !Recalls(k)
    ensures Keyed(k, l, Effect(k, l))
  {
    MoveMeans(k, l);
    EditMeans(k, l);
    WordMoveMeans(k, l);
    if k.KillWord? { WordKillMeans(l); }
    if k.KillWordForward? { WordForwardKillMeans(l); }
  }

  /** What the history does with a finished line (the recognition of its own commands is left out). */
  datatype Action = Ignore | Remember | Resize(maxh: int, memory: bool) | Repeat(idx: nat, xtra: seq<char>)

  /** The line without leading blanks. */
  function Stripped(line: seq<char>): seq<char> {
    if line != [] && IsBlank(line[0]) then Stripped(line[1..]) else line
  }

  lemma {:induction false} StrippedSuffix(line: seq<char>)
    ensures |Stripped(line)| <= |line| && (E.NoNul(line) ==> E.NoNul(Stripped(line)))
    ensures IsStripped(line, Stripped(line))
  {
    if line != [] && IsBlank(line[0]) {
      StrippedSuffix(line[1..]);
      assert line[1 + (|line[1..]| - |Stripped(line)|)..] == Stripped(line);
    }
  }

  predicate IsBlank(c: char) {
    c == ' ' || c == '\t'
  }

  /** The rest of the line from its first character that is neither space nor tab. */
  ghost predicate IsStripped(line: seq<char>, cmd: seq<char>) {
    && |cmd| <= |line| && cmd == line[|line| - |cmd|..] && (cmd != [] ==> !IsBlank(cmd[0]))
    && forall i :: 0 <= i < |line| - |cmd| ==> IsBlank(line[i])
  }

  /** A history line can be put in a buffer of `size` behind the prompt. */
  ghost predicate Fits(line: seq<char>, plen: nat, size: nat) {
    E.NoNul(line) && plen + |line| < size
  }

  ghost predicate AllFit(h: H.Hist, plen: nat, size: nat) {
    forall i :: 0 <= i < |h.entries| ==> Fits(h.entries[i], plen, size)
  }

  lemma KeptFits(h: H.Hist, off: int, plen: nat, size: nat)
    requires AllFit(h, plen, size) && plen < size && H.IsNewestPart(h)
    ensures 0 < off <= |h.entries| ==> |h.entries| <= |h.log| && Fits(h.log[|h.log| - off], plen, size)
  {
    if 0 < off <= |h.entries| { assert h.entries[|h.entries| - off] == h.log[|h.log| - off]; }
  }

  lemma OpsKeepFit(h: H.Hist, op: H.Op, plen: nat, size: nat)
    requires AllFit(h, plen, size) && (op.Add? ==> Fits(op.line, plen, size))
    ensures AllFit(H.Do(h, op), plen, size)
  {
    forall e | e in H.Do(h, op).entries
      ensures Fits(e, plen, size)
    {
      assert e in h.entries || (op.Add? && e == op.line);
    }
  }

  predicate Steps(k: Key) {
    k.CursorLeft? || k.CursorRight? || k.WordForward? || k.WordBackward?
  }

  predicate Goes(k: Key) {
    k.GotoBol? || k.GotoEol? || k.ClearScreen? || k.Redraw?
  }

  /** The keys that move by a character or a word. */
  method StepKey(ed: E.Editor, k: Key)
    requires ed.Valid() && Steps(k)
    modifies ed, ed.buf
    ensures ed.Valid() && ed.histoff == old(ed.histoff) && ed.line == Effect(k, old(ed.line))
  {
    match k
    case CursorLeft => ed.CursorLeft();
    case CursorRight => ed.CursorRight();
    case WordForward => ed.MoveWordForward();
    case WordBackward => ed.MoveWordBackward();
  }

  /** The other keys that leave the text alone. */
  method GotoKey(ed: E.Editor, k: Key)
    requires ed.Valid() && Goes(k)
    modifies ed, ed.buf
    ensures ed.Valid() && ed.histoff == old(ed.histoff) && ed.line == Effect(k, old(ed.line))
  {
    match k
    case GotoBol => ed.GotoBol();
    case GotoEol => ed.GotoEol();
    case ClearScreen => ed.ClearScreen();
    case Redraw =>
  }

  /** The keys that change the text. */
  method EditKey(ed: E.Editor, k: Key)
    requires ed.Valid() && !Recalls(k) && !Steps(k) && !Goes(k)
    requires k.Char? ==> ' ' <= k.c <= '~' && ed.maxpos + 1 < ed.buf.Length
    modifies ed, ed.buf
    ensures ed.Valid() && ed.histoff == old(ed.histoff) && ed.line == Effect(k, old(ed.line))
  {
    match k
    case Backspace => ed.Backspace();
    case DeleteChar => ed.Delete();
    case KillLine => ed.KillLine();
    case KillWord => ed.KillWord();
    case KillToBol => ed.KillToBol();
    case KillToEol => ed.KillToEol();
    case KillWordForward => ed.KillWordForward();
    case Char(c) => ed.Type(c);
  }

  /** Every key that leaves the history alone. */
  method EditorKey(ed: E.Editor, k: Key)
    requires ed.Valid() && !Recalls(k)
    requires k.Char? ==> ' ' <= k.c <= '~' && ed.maxpos + 1 < ed.buf.Length
    modifies ed, ed.buf
    ensures ed.Valid() && ed.histoff == old(ed.histoff) && ed.line == Effect(k, old(ed.line))
    ensures Keyed(k, old(ed.line), ed.line)
  {
    KeyMeans(k, ed.line);
    if Steps(k) { StepKey(ed, k); } else if Goes(k) { GotoKey(ed, k); } else { EditKey(ed, k); }
  }

  class Session {
    const ed: E.Editor
    const hist: H.History

    ghost predicate Valid()
      reads this, ed, ed.buf, hist, hist.cmds, hist.ctag
    {
      && ed.Valid() && hist.Valid()
      && 0 <= ed.histoff <= hist.curidx
      && E.NoNul(ed.prompt) && hist.maxl == ed.buf.Length
      && AllFit(hist.St(), |ed.prompt|, ed.buf.Length)
    }

    constructor (ed: E.Editor, hist: H.History)
      requires ed.Valid() && hist.Valid() && ed.histoff == 0 && hist.curidx == 0
      requires E.NoNul(ed.prompt) && hist.maxl == ed.buf.Length
      ensures Valid() && this.ed == ed && this.hist == hist
    {
      this.ed, this.hist := ed, hist;
    }

    /** rl_init: an empty history of 100, lines of 1024, and the prompt drawn on a terminal of 80
        columns.  `after` is the screen so far, `junk` what newly allocated tags hold. */
    constructor Start(xenl: bool, after: S.Screen, junk: nat -> int)
      requires after.col == 0 && !after.pending && S.BlankFrom(after.cells, after.row, 0, 80)
      ensures Valid() && ed.line == Line([], []) && ed.histoff == 0
      ensures ed.prompt == ">" && ed.width == 80 && ed.buf.Length == 1024 && hist.St() == H.Hist(100, [], [])
    {
      ed := new E.Editor(">", 80, 1024, xenl, after);
      hist := new H.History(100, 1024, junk);
    }

    /** The line is now the off-th newest command ever added, with the cursor behind it; the empty line at
        offset 0.  When no such command is kept, line and offset are the ones before. */
    ghost predicate Recalled(off: int, line: Line, histoff: int)
      reads ed, hist
    {
      if off == 0 then ed.line == Line([], []) && ed.histoff == 0
      else if 0 < off <= hist.curidx
      then off <= |hist.log| && ed.line == Line(hist.log[|hist.log| - off], []) && ed.histoff == off
      else ed.line == line && ed.histoff == histoff
    }

    /** UP_HISTORY and DOWN_HISTORY: the entry at the new offset, the empty line at 0. */
    method Recall(inc: int)
      requires Valid() && (inc == 1 || inc == -1)
      modifies ed, ed.buf
      ensures Valid()
      ensures Recalled(old(ed.histoff) + inc, old(ed.line), old(ed.histoff))
    {
      var p := Look(ed.histoff + inc);
      if p.Some? { ed.ShowHistory(p.value, inc); }
    }

    method Look(off: int) returns (p: Option<seq<char>>)
      requires Valid()
      ensures p.Some? <==> 0 <= off <= hist.curidx
      ensures p.Some? ==> p.value == if off == 0 then [] else hist.log[|hist.log| - off]
      ensures p.Some? ==> Fits(p.value, |ed.prompt|, ed.buf.Length)
    {
      p := hist.GetCmd(off);
      KeptFits(hist.St(), off, |ed.prompt|, ed.buf.Length);
    }

    /** Every key but the one that ends the line; a character must be printable and leave room for the
        terminator (see LineEditor.InsertKeepsTerminator). */
    method OnKey(k: Key)
      requires Valid()
      requires k.Char? ==> ' ' <= k.c <= '~' && ed.maxpos + 1 < ed.buf.Length
      modifies ed, ed.buf
      ensures Valid()
      ensures k == UpHistory ==> Recalled(old(ed.histoff) + 1, old(ed.line), old(ed.histoff))
      ensures k == DownHistory ==> Recalled(old(ed.histoff) - 1, old(ed.line), old(ed.histoff))
      ensures !Recalls(k) ==> ed.histoff == old(ed.histoff) && Keyed(k, old(ed.line), ed.line)
    {
      if Recalls(k) {
        Recall(if k == UpHistory then 1 else -1);
      } else {
        EditorKey(ed, k);
      }
    }

    /** UP then DOWN: back at the history line shown before, or at the empty line. */
    method UpThenDown()
      requires Valid() && ed.histoff < hist.curidx
      modifies ed, ed.buf
      ensures Valid() && ed.histoff == old(ed.histoff)
      ensures ed.line == Line(if ed.histoff == 0 then [] else hist.log[|hist.log| - ed.histoff], [])
    {
      OnKey(UpHistory);
      OnKey(DownHistory);
    }

    /** LINEDONE.  `after` is the screen once the command has printed its own output, `junk` what newly
        allocated tags hold. */
    method Submit(action: Action, after: S.Screen, junk: nat -> int) returns (line: seq<char>)
      requires Valid()
      requires after.col == 0 && !after.pending && S.BlankFrom(after.cells, after.row, 0, ed.width)
      requires action.Repeat? ==> action.idx < hist.curidx
                                  && Fits(hist.St().entries[action.idx] + action.xtra, |ed.prompt|, ed.buf.Length)
      modifies ed, ed.buf, hist, hist.cmds, hist.ctag
      ensures Valid() && ed.histoff == 0 && ed.line == Line([], [])
      ensures line == old(ed.line).left + old(ed.line).right
      ensures action.Remember? ==>
                exists cmd :: IsStripped(line, cmd) && hist.log == if cmd == [] then old(hist.log) else old(hist.log) + [cmd]
      ensures action.Repeat? ==> hist.log == old(hist.log) + [old(hist.St()).entries[action.idx] + action.xtra]
      ensures action.Ignore? || action.Resize? ==> hist.log == old(hist.log)
      ensures action.Remember? || action.Repeat? ==>
                && hist.nbuf == old(hist.nbuf)
                && |hist.log| - |old(hist.log)| <= 1
                && hist.curidx == if old(hist.curidx) == hist.nbuf then hist.nbuf
                                  else old(hist.curidx) + (|hist.log| - |old(hist.log)|)
      ensures hist.St() == match action
                           case Ignore => old(hist.St())
                           case Remember =>
                             if Stripped(line) == [] then old(hist.St()) else H.Do(old(hist.St()), H.Add(Stripped(line)))
                           case Resize(maxh, memory) =>
                             if memory then H.Do(old(hist.St()), H.Resize(maxh)) else old(hist.St())
                           case Repeat(idx, xtra) =>
                             H.Do(old(hist.St()), H.Add(old(hist.St()).entries[idx] + xtra))
    {
      line := ed.EndLine();
      StrippedSuffix(line);
      UpdateHistory(action, line, junk);
      ed.FreshPrompt(after);
    }

    method UpdateHistory(action: Action, line: seq<char>, junk: nat -> int)
      requires hist.Valid() && hist.maxl == ed.buf.Length && Fits(line, |ed.prompt|, ed.buf.Length)
      requires AllFit(hist.St(), |ed.prompt|, ed.buf.Length)
      requires action.Repeat? ==> action.idx < hist.curidx
                                  && Fits(hist.St().entries[action.idx] + action.xtra, |ed.prompt|, ed.buf.Length)
      modifies hist, hist.cmds, hist.ctag
      ensures hist.Valid() && (hist.cmds == old(hist.cmds) || fresh(hist.cmds)) && (hist.ctag == old(hist.ctag) || fresh(hist.ctag))
      ensures AllFit(hist.St(), |ed.prompt|, ed.buf.Length)
      ensures hist.St() == match action
                           case Ignore => old(hist.St())
                           case Remember =>
                             if Stripped(line) == [] then old(hist.St()) else H.Do(old(hist.St()), H.Add(Stripped(line)))
                           case Resize(maxh, memory) =>
                             if memory then H.Do(old(hist.St()), H.Resize(maxh)) else old(hist.St())
                           case Repeat(idx, xtra) =>
                             H.Do(old(hist.St()), H.Add(old(hist.St()).entries[idx] + xtra))
    {
      StrippedSuffix(line);
      match action
      case Ignore =>
      case Remember =>
        var cmd := Stripped(line);
        if cmd != [] {
          OpsKeepFit(hist.St(), H.Add(cmd), |ed.prompt|, ed.buf.Length);
          assert cmd + [] == cmd;
          var pt := hist.AddLine(cmd, []);
        }
      case Resize(maxh, memory) =>
        OpsKeepFit(hist.St(), H.Resize(maxh), |ed.prompt|, ed.buf.Length);
        hist.SetMax(maxh, memory, junk);
      case Repeat(idx, xtra) =>
        OpsKeepFit(hist.St(), H.Add(hist.St().entries[idx] + xtra), |ed.prompt|, ed.buf.Length);
        var p := hist.Repeat(idx, xtra);
    }
  }
}
