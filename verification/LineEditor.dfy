// The line editor of the manager's console (trxmgrRl.c): a fixed buffer edited in place, and the
// terminal output that keeps the screen in step with it.
module LineEditor {
  import opened Zipper
  import S = Screen

  const NUL := '\0'

  /** C's strlen, as far as the array goes. */
  function StrLen(s: seq<char>): (n: nat)
    ensures n <= |s|
  {
    if s == [] || s[0] == NUL then 0 else 1 + StrLen(s[1..])
  }

  lemma {:induction false} StrLenIs(s: seq<char>, n: nat)
    requires n < |s| && s[n] == NUL && forall k :: 0 <= k < n ==> s[k] != NUL
    ensures StrLen(s) == n
  {
    if n > 0 { StrLenIs(s[1..], n - 1); }
  }

  ghost predicate NoNul(s: seq<char>) {
    forall k :: 0 <= k < |s| ==> s[k] != NUL
  }

  /** The buffer holds the C string `text`. */
  ghost predicate Holds(buf: seq<char>, text: seq<char>) {
    |text| < |buf| && buf[..|text|] == text && buf[|text|] == NUL && NoNul(text)
  }

  lemma {:induction false} HoldsStrLen(buf: seq<char>, text: seq<char>)
    requires Holds(buf, text)
    ensures StrLen(buf) == |text|
  {
    StrLenIs(buf, |text|);
  }

  /** What memmove(buf+dst, buf+src, n) does. */
  ghost predicate Moved(before: seq<char>, after: seq<char>, dst: nat, src: nat, n: nat) {
    && |after| == |before| && dst + n <= |before| && src + n <= |before|
    && (forall k {:trigger after[k]} :: dst <= k < dst + n ==> after[k] == before[src + (k - dst)])
    && forall k {:trigger after[k]} :: 0 <= k < |before| && !(dst <= k < dst + n) ==> after[k] == before[k]
  }

  /** A terminator stored in the text makes a string of the part before it. */
  lemma CutOff(buf: seq<char>, text: seq<char>, i: nat, max: nat)
    requires Holds(buf, text) && i + max <= |text|
    ensures var part := buf[i + max := NUL][i..]; StrLen(part) == max && part[..max] == text[i..i + max]
  {
    var part := buf[i + max := NUL][i..];
    assert forall k :: 0 <= k < max ==> part[k] == buf[..|text|][i + k] == text[i + k];
    StrLenIs(part, max);
  }

  ghost predicate Opened(before: seq<char>, after: seq<char>, p: nat, c: char) {
    && |after| == |before| && p < |before| && after[p] == c
    && (forall k {:trigger after[k]} :: p < k < |after| ==> after[k] == before[k - 1])
    && forall k {:trigger after[k]} :: 0 <= k < p ==> after[k] == before[k]
  }

  ghost predicate Copied(before: seq<char>, after: seq<char>, at: nat, s: seq<char>) {
    && |after| == |before| && at + |s| < |before| && after[at + |s|] == NUL
    && (forall k {:trigger after[k]} :: at <= k < at + |s| ==> after[k] == s[k - at])
    && forall k {:trigger after[k]} :: 0 <= k < at ==> after[k] == before[k]
  }

  /** The prompt and the line behind it. */
  function Whole(prompt: seq<char>, l: Line): (text: seq<char>)
    ensures |text| == |prompt| + |l.left| + |l.right|
  {
    prompt + l.left + l.right
  }

  class Editor {
    const prompt: seq<char>
    const width: nat
    const xenl: bool
    const buf: array<char>
    var curpos: nat
    var maxpos: nat
    var histoff: int
    var screen: S.Screen
    /** The edited line: what is between the prompt and the cursor, and what is after it. */
    ghost var line: Line
    /** The screen row on which the prompt was printed. */
    ghost var origin: int

    /** The buffer holds `text`, which starts with the prompt. */
    ghost predicate Has(text: seq<char>)
      reads this, buf
    {
      && 0 < |prompt| < width && |prompt| <= |text| == maxpos < buf.Length && curpos <= maxpos
      && Holds(buf[..], text) && prompt <= text
    }

    /** Cell k of the screen shows text[k], the cells after it are blank, and the cursor is on the cell
        of curpos. */
    ghost predicate Shown(text: seq<char>)
      reads this, buf
    {
      && Has(text)
      && S.Displays(screen.cells, origin, text, width)
      && S.CursorAt(screen, origin, curpos, width)
    }

    /** Buffer, screen and cursor agree with the line. */
    ghost predicate Valid()
      reads this, buf
    {
      Shown(Whole(prompt, line)) && curpos == |prompt| + |line.left|
    }

    /** rl_init, once the terminal is set up; the prompt is drawn on a fresh row. */
    constructor (prompt: seq<char>, width: nat, maxl: nat, xenl: bool, after: S.Screen)
      requires 0 < |prompt| < width && |prompt| < maxl && NoNul(prompt)
      requires after.col == 0 && !after.pending && S.BlankFrom(after.cells, after.row, 0, width)
      ensures Valid() && fresh(buf) && buf.Length == maxl && this.prompt == prompt && this.width == width
      ensures origin == after.row && histoff == 0 && line == Line([], [])
    {
      this.prompt, this.width, this.xenl := prompt, width, xenl;
      buf := new char[maxl](i => NUL);
      curpos, maxpos, screen := 0, 0, after;
      new;
      FreshPrompt(after);
    }

    // -------------------------------------------------------------- output

    /** curboth: move the terminal's cursor from the cell of curpos to the cell of curpos+n. */
    method CurBoth(n: int)
      requires width > 0 && curpos + n >= 0 && S.CursorAt(screen, origin, curpos, width)
      modifies `curpos, `screen
      ensures curpos == old(curpos) + n
      ensures screen.cells == old(screen).cells && S.CursorAt(screen, origin, curpos, width)
    {
      S.RowsByDivision(curpos, width);
      S.RowsByDivision(curpos + n, width);
      var curx, cury := curpos % width, curpos / width;
      var newx, newy := (curpos + n) % width, (curpos + n) / width;
      if newy > cury { screen := S.Move(screen, newy - cury, 0); }
      else if cury > newy { screen := S.Move(screen, -(cury - newy), 0); }
      if newx > curx { screen := S.Move(screen, 0, newx - curx); }
      else if curx > newx { screen := S.Move(screen, 0, -(curx - newx)); }
      curpos := curpos + n;
    }

    /** The string that starts at buf[i], as far as its terminator. */
    method CliPutStr(i: nat)
      requires i <= buf.Length
      modifies `screen
      ensures screen == S.PutStr(old(screen), buf[i..][..StrLen(buf[i..])], width, xenl)
    {
      screen := S.PutStr(screen, buf[i..][..StrLen(buf[i..])], width, xenl);
    }

    /** Print buf[i..i+max], cut off by a temporary terminator. */
    method PutPart(ghost text: seq<char>, i: nat, max: nat)
      requires Holds(buf[..], text) && i + max <= |text|
      modifies `screen, buf
      ensures buf[..] == old(buf[..])
      ensures screen == S.PutStr(old(screen), text[i..i + max], width, xenl)
    {
      var c := buf[i + max];
      ghost var before := buf[..];
      buf[i + max] := NUL;
      CutOff(before, text, i, max);
      assert buf[..] == before[i + max := NUL];
      assert buf[i..] == buf[..][i..];
      CliPutStr(i);
      buf[i + max] := c;
      assert buf[..] == old(buf[..]);
    }

    /** One pass of the loop in showbuf: at most one row. */
    method ShowRow(ghost text: seq<char>, i: nat, max: nat)
      requires width > 0 && 0 < max <= width - S.Col(i, width) && i + max <= |text|
      requires Holds(buf[..], text)
      requires S.Displays(screen.cells, origin, text[..i], width) && S.CursorAt(screen, origin, i, width)
      modifies `screen, buf
      ensures buf[..] == old(buf[..])
      ensures S.Displays(screen.cells, origin, text[..i + max], width) && S.CursorAt(screen, origin, i + max, width)
    {
      PutPart(text, i, max);
      S.RowPrinted(old(screen), screen, origin, text, i, i + max, width, xenl);
      if (i + max) % width == 0 && xenl {
        screen := S.LineFeed(screen);
        screen := S.Return(screen);
      }
    }

    /** showbuf: clear to the end of the display, print the buffer from curpos on, and if asked put the
        cursor back. */
    method ShowBuf(ghost text: seq<char>, repos: bool)
      requires Has(text) && S.CursorAt(screen, origin, curpos, width)
      requires S.ShowsPrefix(screen.cells, origin, text, curpos, width)
      modifies `screen, `curpos, buf
      ensures buf[..] == old(buf[..]) && Shown(text)
      ensures curpos == if repos then old(curpos) else maxpos
    {
      var pos := curpos;
      S.ClearKeepsPrefix(screen, origin, text, curpos, width);
      screen := S.ClearDown(screen);
      ShowRows(text);
      curpos := maxpos;
      if repos { CurBoth(-(maxpos - pos)); }
    }

    /** The loop of showbuf. */
    method ShowRows(ghost text: seq<char>)
      requires width > 0 && Holds(buf[..], text) && curpos <= maxpos == |text|
      requires S.Displays(screen.cells, origin, text[..curpos], width) && S.CursorAt(screen, origin, curpos, width)
      modifies `screen, buf
      ensures buf[..] == old(buf[..])
      ensures S.Displays(screen.cells, origin, text, width) && S.CursorAt(screen, origin, maxpos, width)
    {
      var i := curpos;
      while i < maxpos
        invariant curpos <= i <= maxpos && buf[..] == old(buf[..])
        invariant S.Displays(screen.cells, origin, text[..i], width) && S.CursorAt(screen, origin, i, width)
      {
        S.RowsByDivision(i, width);
        var max := width - i % width;
        if i + max > maxpos { max := maxpos - i; }
        ShowRow(text, i, max);
        i := i + max;
      }
      assert text[..maxpos] == text;
    }

    // -------------------------------------------------------------- in-place edits

    /** memmove(buf+dst, buf+src, n) */
    method Memmove(dst: nat, src: nat, n: nat)
      requires dst + n <= buf.Length && src + n <= buf.Length
      modifies buf
      ensures Moved(old(buf[..]), buf[..], dst, src, n)
    {
      forall k | dst <= k < dst + n {
        buf[k] := buf[src + (k - dst)];
      }
    }

    /** strcpy(buf+at, s) */
    method StrCpy(at: nat, s: seq<char>)
      requires at + |s| < buf.Length
      modifies buf
      ensures Copied(old(buf[..]), buf[..], at, s)
    {
      forall k | at <= k < at + |s| {
        buf[k] := s[k - at];
      }
      buf[at + |s|] := NUL;
    }

    /** The end of every edit: the buffer holds `text`, and up to the cursor the screen shows it already. */
    method Finish(ghost text: seq<char>, repos: bool)
      requires 0 < |prompt| < width && |prompt| <= |text| && prompt <= text && curpos <= |text| && Holds(buf[..], text)
      requires S.ShowsPrefix(screen.cells, origin, text, curpos, width) && S.CursorAt(screen, origin, curpos, width)
      modifies `maxpos, `curpos, `screen, buf
      ensures curpos == (if repos then old(curpos) else maxpos) && Shown(text)
    {
      HoldsStrLen(buf[..], text);
      maxpos := StrLen(buf[..]);
      ShowBuf(text, repos);
    }

    /** Delete the `n` characters from the cursor on. */
    method CutRight(n: nat)
      requires Valid() && n <= |line.right|
      modifies this, buf
      ensures Valid() && origin == old(origin) && histoff == old(histoff)
      ensures line == Line(old(line).left, old(line).right[n..])
    {
      ghost var before, l := buf[..], line;
      line := Line(line.left, line.right[n..]);
      KeptShown(screen.cells, origin, prompt, l, line, |line.left|, width);
      Memmove(curpos, curpos + n, buf.Length - (curpos + n));
      HoldsCutRight(before, buf[..], prompt, l, n);
      Finish(Whole(prompt, line), true);
    }

    /** Move the cursor to position `n` of the line. */
    method MoveTo(n: nat)
      requires Valid() && n <= |line.left| + |line.right|
      modifies this
      ensures Valid() && origin == old(origin) && histoff == old(histoff)
      ensures line == MovedTo(old(line), n)
    {
      WholeMoved(prompt, line, n);
      line := MovedTo(line, n);
      CurBoth(|prompt| + n - curpos);
    }

    /** Delete what is before the cursor down to position `n` of the line. */
    method CutLeft(n: nat)
      requires Valid() && n <= |line.left|
      modifies this, buf
      ensures Valid() && origin == old(origin) && histoff == old(histoff)
      ensures line == Line(old(line).left[..n], old(line).right)
    {
      CutMoved(line, n);
      var q := curpos;
      MoveTo(n);
      CutRight(q - curpos);
    }

    // -------------------------------------------------------------- keys

    method Backspace()
      requires Valid()
      modifies this, buf
      ensures Valid() && origin == old(origin) && histoff == old(histoff)
      ensures line == Backspaced(old(line))
    {
      if curpos > |prompt| { CutLeft(curpos - |prompt| - 1); }
    }

    method CursorLeft()
      requires Valid()
      modifies this
      ensures Valid() && origin == old(origin) && histoff == old(histoff)
      ensures line == MovedLeft(old(line))
    {
      if curpos > |prompt| { MoveTo(curpos - |prompt| - 1); }
    }

    method Delete()
      requires Valid()
      modifies this, buf
      ensures Valid() && origin == old(origin) && histoff == old(histoff)
      ensures line == Deleted(old(line))
    {
      if curpos < maxpos { CutRight(1); }
    }

    method CursorRight()
      requires Valid()
      modifies this
      ensures Valid() && origin == old(origin) && histoff == old(histoff)
      ensures line == MovedRight(old(line))
    {
      if curpos < maxpos { MoveTo(curpos - |prompt| + 1); }
    }

    method KillLine()
      requires Valid()
      modifies this, buf
      ensures Valid() && origin == old(origin) && histoff == old(histoff)
      ensures line == Line([], [])
    {
      MoveTo(0);
      KillToEol();
    }

    method KillToBol()
      requires Valid()
      modifies this, buf
      ensures Valid() && origin == old(origin) && histoff == old(histoff)
      ensures line == Line([], old(line).right)
    {
      CutLeft(0);
    }

    /** buf[curpos] becomes the end of the string. */
    method KillToEol()
      requires Valid()
      modifies this, buf
      ensures Valid() && origin == old(origin) && histoff == old(histoff)
      ensures line == Line(old(line).left, [])
    {
      ghost var before, l := buf[..], line;
      line := Line(line.left, []);
      KeptShown(screen.cells, origin, prompt, l, line, |line.left|, width);
      buf[curpos] := NUL;
      HoldsUpTo(before, buf[..], prompt, l);
      Finish(Whole(prompt, line), true);
    }

    method GotoBol()
      requires Valid()
      modifies this
      ensures Valid() && origin == old(origin) && histoff == old(histoff)
      ensures line == MovedTo(old(line), 0)
    {
      MoveTo(0);
    }

    method GotoEol()
      requires Valid()
      modifies this
      ensures Valid() && origin == old(origin) && histoff == old(histoff)
      ensures line == MovedTo(old(line), |old(line).left| + |old(line).right|)
    {
      MoveTo(maxpos - |prompt|);
    }

    /** One of the backward loops: step back while buf[i] is (or is not) alphanumeric, to the prompt at
        most.  `left` is the text behind the prompt. */
    method SkipBack(ghost left: seq<char>, from: nat, alnum: bool) returns (i: nat)
      requires |prompt| <= from < |prompt| + |left| <= buf.Length
      requires left == buf[|prompt|..|prompt| + |left|]
      ensures |prompt| <= i <= from && buf[i] == left[i - |prompt|]
      ensures i == |prompt| || IsAlnum(left[i - |prompt|]) != alnum
      ensures forall k :: i - |prompt| < k <= from - |prompt| ==> IsAlnum(left[k]) == alnum
    {
      ghost var p := |prompt|;
      i := from;
      assert left[i - p] == buf[i];
      while IsAlnum(buf[i]) == alnum && i > |prompt|
        invariant p <= i <= from && left[i - p] == buf[i]
        invariant forall k :: i - p < k <= from - p ==> IsAlnum(left[k]) == alnum
      {
        i := i - 1;
        assert left[i - p] == buf[i];
      }
    }

    /** The two backward loops that KILLWORD and WORD_BACKWARD share. */
    method ScanBack() returns (i: nat)
      requires Valid() && curpos > |prompt|
      ensures |prompt| <= i < curpos
      ensures BackStop(line.left, i - |prompt|) && buf[i] == line.left[i - |prompt|]
    {
      BufferIsLine(buf[..], prompt, line);
      var e := SkipBack(line.left, curpos - 1, false);
      i := SkipBack(line.left, e, true);
      FoundBack(line.left, e - |prompt|, i - |prompt|);
    }

    method KillWord()
      requires Valid()
      modifies this, buf
      ensures Valid() && origin == old(origin) && histoff == old(histoff)
      ensures line == WordKilled(old(line))
    {
      if curpos > |prompt| {
        var i := ScanBack();
        KillsFrom(line, i - |prompt|);
        if i < maxpos && !IsAlnum(buf[i]) { i := i + 1; }
        CutLeft(i - |prompt|);
      }
    }

    method MoveWordBackward()
      requires Valid()
      modifies this
      ensures Valid() && origin == old(origin) && histoff == old(histoff)
      ensures line == MovedWordBack(old(line))
    {
      if curpos > |prompt| {
        var i := ScanBack();
        BufferIsLine(buf[..], prompt, line);
        i := NotAtSeparator(line.left, i);
        MoveTo(i - |prompt|);
      }
    }

    /** The last loop of WORD_BACKWARD, which does not run when the scan has reached the prompt. */
    method NotAtSeparator(ghost left: seq<char>, from: nat) returns (i: nat)
      requires |prompt| <= from < |prompt| + |left| <= buf.Length
      requires left == buf[|prompt|..|prompt| + |left|]
      requires BackStop(left, from - |prompt|)
      ensures i == |prompt| + BackwardTarget(left) <= |prompt| + |left|
    {
      i := from;
      LastStartIsLast(left, |left|);
      ghost var p, m := |prompt|, LastStart(left, |left|);
      assert left[i - p] == buf[i];
      while !IsAlnum(buf[i]) && i > |prompt|
        invariant p <= i < p + |left| && left[i - p] == buf[i]
        invariant if m >= 2 then m - 1 <= i - p <= m && (i - p == m - 1 ==> !IsAlnum(left[i - p])) else i == p
        decreases p + |left| - i
      {
        i := i + 1;
        assert left[i - p] == buf[i];
      }
    }

    /** One of the forward loops, to the end of the line at most.  `right` is the text from the cursor on. */
    method SkipForward(ghost right: seq<char>, from: nat, alnum: bool) returns (i: nat)
      requires curpos <= from <= maxpos < buf.Length && right == buf[curpos..maxpos]
      ensures from <= i <= maxpos && (i == maxpos || IsAlnum(right[i - curpos]) != alnum)
      ensures i < maxpos ==> buf[i] == right[i - curpos]
      ensures forall k :: from - curpos <= k < i - curpos ==> IsAlnum(right[k]) == alnum
    {
      ghost var p := curpos;
      i := from;
      assert i < maxpos ==> right[i - p] == buf[i];
      while IsAlnum(buf[i]) == alnum && i < maxpos
        invariant from <= i <= maxpos && (i < maxpos ==> right[i - p] == buf[i])
        invariant forall k :: from - p <= k < i - p ==> IsAlnum(right[k]) == alnum
      {
        i := i + 1;
        assert i < maxpos ==> right[i - p] == buf[i];
      }
    }

    /** The two forward loops of WORD_FORWARD and KILL_WORD_FORWARD. */
    method ScanForward() returns (i: nat)
      requires Valid() && curpos < maxpos
      ensures curpos <= i <= maxpos && i - curpos == ForwardTarget(line.right)
    {
      BufferIsLine(buf[..], prompt, line);
      i := ScanWord(line.right);
    }

    method ScanWord(ghost right: seq<char>) returns (i: nat)
      requires curpos < maxpos < buf.Length && right == buf[curpos..maxpos]
      ensures curpos <= i <= maxpos && i - curpos == ForwardTarget(right)
    {
      var a := SkipForward(right, curpos, false);
      i := SkipForward(right, a, true);
      ForwardScan(right, a - curpos, i - curpos);
    }

    method MoveWordForward()
      requires Valid()
      modifies this
      ensures Valid() && origin == old(origin) && histoff == old(histoff)
      ensures line == MovedWordForward(old(line))
    {
      if curpos < maxpos {
        var i := ScanForward();
        MoveTo(i - |prompt|);
      }
    }

    /** The third loop of KILL_WORD_FORWARD, and the separator it keeps. */
    method ScanToNextWord() returns (i: nat)
      requires Valid() && curpos < maxpos
      ensures curpos <= i <= maxpos && i - curpos == KillForwardTarget(line.right)
    {
      var e := ScanForward();
      BufferIsLine(buf[..], prompt, line);
      i := SkipForward(line.right, e, false);
      NextAlnumIs(line.right, e - curpos, i - curpos);
      ForwardNotAtStart(line.right, e - curpos);
      if i < maxpos && IsAlnum(buf[i]) { i := i - 1; }
    }

    method KillWordForward()
      requires Valid()
      modifies this, buf
      ensures Valid() && origin == old(origin) && histoff == old(histoff)
      ensures line == WordForwardKilled(old(line))
    {
      if curpos < maxpos {
        var i := ScanToNextWord();
        CutRight(i - curpos);
      }
    }

    /** A printable character: make room, store it, redraw, and step over it. */
    method Type(c: char)
      requires Valid() && ' ' <= c <= '~' && maxpos + 1 < buf.Length
      modifies this, buf
      ensures Valid() && origin == old(origin) && histoff == old(histoff)
      ensures line == Typed(old(line), c)
    {
      TypedMoved(line, c);
      InsertChar(c);
      MoveTo(curpos - |prompt| + 1);
    }

    /** The insertion, with the cursor still before the new character. */
    method InsertChar(c: char)
      requires Valid() && ' ' <= c <= '~' && maxpos + 1 < buf.Length
      modifies this, buf
      ensures Valid() && origin == old(origin) && histoff == old(histoff)
      ensures line == Line(old(line).left, [c] + old(line).right)
    {
      ghost var before, l := buf[..], line;
      line := Line(line.left, [c] + line.right);
      KeptShown(screen.cells, origin, prompt, l, line, |line.left|, width);
      OpenGap(curpos, c);
      HoldsInserted(before, buf[..], prompt, l, c);
      maxpos := maxpos + 1;
      ShowBuf(Whole(prompt, line), true);
    }

    /** Shift the rest of the line one place and store `c`. */
    method OpenGap(p: nat, c: char)
      requires p < buf.Length
      modifies buf
      ensures Opened(old(buf[..]), buf[..], p, c)
    {
      Memmove(p + 1, p, buf.Length - p - 1);
      buf[p] := c;
    }

    /** clear the screen and draw the whole buffer from its top left corner. */
    method ClearScreen()
      requires Valid()
      modifies this, buf
      ensures Valid() && origin == 0 && histoff == old(histoff)
      ensures line == old(line)
    {
      var i := curpos;
      screen := S.ClearScreen(screen);
      curpos := 0;
      origin := 0;
      ShowBuf(Whole(prompt, line), false);
      curpos := maxpos;
      CurBoth(-(maxpos - i));
    }

    /** Replace the line by one from the history: UP_HISTORY and DOWN_HISTORY once a line was found. */
    method ShowHistory(s: seq<char>, inc: int)
      requires Valid() && NoNul(s) && |prompt| + |s| < buf.Length
      modifies this, buf
      ensures Valid() && origin == old(origin) && histoff == old(histoff) + inc
      ensures line == Line(s, [])
    {
      MoveTo(0);
      Replace(s);
      histoff := histoff + inc;
    }

    /** The copy and the redrawing, which leaves the cursor behind the line. */
    method Replace(s: seq<char>)
      requires Valid() && line.left == [] && NoNul(s) && |prompt| + |s| < buf.Length
      modifies this, buf
      ensures Valid() && origin == old(origin) && histoff == old(histoff)
      ensures line == Line(s, [])
    {
      ghost var before, l := buf[..], line;
      line := Line(s, []);
      KeptShown(screen.cells, origin, prompt, l, line, 0, width);
      StrCpy(|prompt|, s);
      HoldsReplaced(before, buf[..], prompt, l, s);
      Finish(Whole(prompt, line), false);
      curpos := maxpos;
    }

    /** LINEDONE, up to the line being handed on: the cursor goes below the text. */
    method EndLine() returns (s: seq<char>)
      requires Valid()
      modifies this
      ensures s == old(line).left + old(line).right && NoNul(s)
      ensures Has(prompt + s) && origin == old(origin) && histoff == old(histoff)
      ensures screen.row == origin + S.Row(maxpos, width) + 1 && screen.col == 0 && !screen.pending
      ensures S.Displays(screen.cells, origin, prompt + s, width)
    {
      s := buf[|prompt|..maxpos];
      BufferRest(buf[..], prompt, line);
      CurBoth(maxpos - curpos);
      screen := S.LineFeed(S.Return(screen));
    }

    /** rl_resetState and rlShowPrompt, once the command's own output has ended on a fresh row. */
    method FreshPrompt(after: S.Screen)
      requires 0 < |prompt| < width && |prompt| < buf.Length && NoNul(prompt)
      requires after.col == 0 && !after.pending && S.BlankFrom(after.cells, after.row, 0, width)
      modifies this, buf
      ensures Valid() && origin == after.row && histoff == 0
      ensures line == Line([], [])
    {
      forall k | 0 <= k < buf.Length {
        buf[k] := if k < |prompt| then prompt[k] else NUL;
      }
      assert buf[..|prompt|] == prompt;
      histoff := 0;
      HoldsStrLen(buf[..], prompt);
      maxpos := StrLen(buf[..]);
      curpos := maxpos;
      screen := after;
      origin := after.row;
      line := Line([], []);
      assert Whole(prompt, line) == prompt;
      PrintPrompt();
      ShowBuf(prompt, false);
    }

    /** The prompt as rlShowPrompt prints it, in one piece. */
    method PrintPrompt()
      requires Has(prompt)
      requires screen.row == origin && screen.col == 0 && !screen.pending && S.BlankFrom(screen.cells, origin, 0, width)
      modifies `screen
      ensures S.Displays(screen.cells, origin, prompt, width) && S.CursorAt(screen, origin, maxpos, width)
    {
      StrLenIs(buf[0..], maxpos);
      CliPutStr(0);
      assert buf[0..][..maxpos] == prompt[0..maxpos];
      assert prompt[..0] == [] && prompt[..maxpos] == prompt;
      S.PutChunk(old(screen), origin, prompt, 0, maxpos, width, xenl);
    }
  }

  /** Typing on until the line has maxl-1 characters: there, whatever is typed next and wherever, the
      insertion pushes the terminator out. */
  method FillUp(ed: Editor)
    requires ed.Valid()
    modifies ed, ed.buf
    ensures ed.Valid() && ed.maxpos + 1 == ed.buf.Length
    ensures forall p: nat, c, k :: p <= ed.maxpos && c != NUL && 0 <= k < ed.buf.Length ==>
              (ed.buf[..p] + [c] + ed.buf[p..ed.maxpos])[k] != NUL
  {
    while ed.maxpos + 1 < ed.buf.Length
      invariant ed.Valid()
      decreases ed.buf.Length - ed.maxpos
    {
      ed.Type('x');
    }
    ghost var b, n := ed.buf[..], ed.maxpos;
    forall p: nat, c, k | p <= n && c != NUL && 0 <= k < |b|
      ensures (b[..p] + [c] + b[p..n])[k] != NUL
    {
      InsertKeepsTerminator(b, Whole(ed.prompt, ed.line), p, c, b[..p] + [c] + b[p..|b| - 1]);
    }
  }

  /** Position `k` of the text before the cursor is where the backward loops stop: one before the last
      place where a word starts, or at the very beginning. */
  predicate BackStop(left: seq<char>, k: nat) {
    && k < |left|
    && var m := LastStart(left, |left|);
       if m >= 1 then k == m - 1 && !IsAlnum(left[k]) else k == 0
  }

  lemma FoundBack(left: seq<char>, e: nat, i: nat)
    requires i <= e < |left| && (e == 0 || IsAlnum(left[e])) && (i == 0 || !IsAlnum(left[i]))
    requires forall k :: e < k < |left| ==> !IsAlnum(left[k])
    requires forall k :: i < k <= e ==> IsAlnum(left[k])
    ensures BackStop(left, i)
  {
    BackScan(left, e, i);
  }

  lemma KillsFrom(l: Line, k: nat)
    requires BackStop(l.left, k)
    ensures WordKilled(l) == Line(l.left[..if IsAlnum(l.left[k]) then k else k + 1], l.right)
  {
    LastStartIsLast(l.left, |l.left|);
  }

  /** The line as it lies in the buffer, before and after the cursor. */
  lemma BufferIsLine(buf: seq<char>, prompt: seq<char>, l: Line)
    requires Holds(buf, Whole(prompt, l))
    ensures buf[|prompt|..|prompt| + |l.left|] == l.left
    ensures buf[|prompt| + |l.left|..|prompt| + |l.left| + |l.right|] == l.right
  {
    var text := Whole(prompt, l);
    assert buf[|prompt|..|prompt| + |l.left|] == text[|prompt|..|prompt| + |l.left|];
    assert buf[|prompt| + |l.left|..|text|] == text[|prompt| + |l.left|..];
  }

  /** The memmove and the store of an insertion leave the longer string, terminated. */
  lemma GapOpened(before: seq<char>, after: seq<char>, text: seq<char>, p: nat, c: char)
    requires Holds(before, text) && p <= |text| && |text| + 1 < |before| && c != NUL && Opened(before, after, p, c)
    ensures Holds(after, text[..p] + [c] + text[p..])
  {
    var t := text[..p] + [c] + text[p..];
    forall k | 0 <= k < |t|
      ensures after[k] == t[k]
    {
      if k < p {
        assert after[k] == before[k] == text[k];
      } else if k > p {
        assert after[k] == before[k - 1] == text[k - 1];
      }
    }
    assert after[|t|] == before[|text|] == NUL;
    assert after[..|t|] == t;
  }

  /** The memmove of a deletion leaves the string without the gap, terminated. */
  lemma GapClosed(before: seq<char>, after: seq<char>, text: seq<char>, p: nat, q: nat)
    requires Holds(before, text) && p <= q <= |text| && Moved(before, after, p, q, |before| - q)
    ensures Holds(after, text[..p] + text[q..])
  {
    var t := text[..p] + text[q..];
    forall k | 0 <= k < |t|
      ensures after[k] == t[k]
    {
      if k < p {
        assert after[k] == before[k] == text[k];
      } else {
        assert after[k] == before[q + (k - p)] == text[q + (k - p)];
      }
    }
    assert after[|t|] == before[|text|] == NUL;
    assert after[..|t|] == t;
  }

  /** The editor's own bound lets the buffer fill up one character too far: it beeps only at a length
      of `maxl`, and inserting into a line of `maxl-1` characters pushes the terminator out. */
  lemma InsertKeepsTerminator(buf: seq<char>, text: seq<char>, p: nat, c: char, after: seq<char>)
    requires Holds(buf, text) && p <= |text| && c != NUL
    requires after == buf[..p] + [c] + buf[p..|buf| - 1]
    ensures (exists k :: 0 <= k <= |text| + 1 && k < |after| && after[k] == NUL) <==> |text| + 1 < |buf|
  {
    if |text| + 1 < |buf| {
      assert after[|text| + 1] == buf[|text|];
    } else {
      forall k | 0 <= k < |after|
        ensures after[k] != NUL
      {
        if k < p {
          assert after[k] == buf[k] == text[k];
        } else if k > p {
          assert after[k] == buf[k - 1] == text[k - 1];
        }
      }
    }
  }

  lemma CutMoved(l: Line, n: nat)
    requires n <= |l.left|
    ensures var m := MovedTo(l, n);
            |m.right| >= |l.left| - n && Line(m.left, m.right[|l.left| - n..]) == Line(l.left[..n], l.right)
  {
    var m, s := MovedTo(l, n), l.left + l.right;
    assert s[..n] == l.left[..n] && s[n..][|l.left| - n..] == l.right;
  }

  lemma HoldsCutRight(before: seq<char>, after: seq<char>, prompt: seq<char>, l: Line, n: nat)
    requires Holds(before, Whole(prompt, l)) && n <= |l.right|
    requires Moved(before, after, |prompt| + |l.left|, |prompt| + |l.left| + n, |before| - (|prompt| + |l.left| + n))
    ensures Holds(after, Whole(prompt, Line(l.left, l.right[n..])))
  {
    var text, p := Whole(prompt, l), |prompt| + |l.left|;
    GapClosed(before, after, text, p, p + n);
    assert Whole(prompt, Line(l.left, l.right[n..])) == text[..p] + text[p + n..];
  }

  lemma HoldsUpTo(before: seq<char>, after: seq<char>, prompt: seq<char>, l: Line)
    requires Holds(before, Whole(prompt, l)) && |after| == |before|
    requires after[|prompt| + |l.left|] == NUL && forall k :: 0 <= k < |prompt| + |l.left| ==> after[k] == before[k]
    ensures Holds(after, Whole(prompt, Line(l.left, [])))
  {
    var text, p := Whole(prompt, l), |prompt| + |l.left|;
    var t := Whole(prompt, Line(l.left, []));
    assert t == text[..p];
    assert forall k :: 0 <= k < p ==> after[k] == before[..|text|][k] == text[k] == t[k];
    assert after[..p] == t;
  }

  lemma HoldsInserted(before: seq<char>, after: seq<char>, prompt: seq<char>, l: Line, c: char)
    requires Holds(before, Whole(prompt, l)) && |Whole(prompt, l)| + 1 < |before| && c != NUL
    requires Opened(before, after, |prompt| + |l.left|, c)
    ensures Holds(after, Whole(prompt, Line(l.left, [c] + l.right)))
  {
    var text, p := Whole(prompt, l), |prompt| + |l.left|;
    GapOpened(before, after, text, p, c);
    assert Whole(prompt, Line(l.left, [c] + l.right)) == text[..p] + [c] + text[p..];
  }

  lemma HoldsReplaced(before: seq<char>, after: seq<char>, prompt: seq<char>, l: Line, s: seq<char>)
    requires Holds(before, Whole(prompt, l)) && NoNul(s) && Copied(before, after, |prompt|, s)
    ensures Holds(after, Whole(prompt, Line(s, [])))
  {
    var text, t := Whole(prompt, l), Whole(prompt, Line(s, []));
    forall k | 0 <= k < |t|
      ensures after[k] == t[k]
    {
      if k < |prompt| { assert after[k] == before[..|text|][k] == text[k] == prompt[k]; }
    }
    assert NoNul(t) by {
      forall k | 0 <= k < |t|
        ensures t[k] != NUL
      {
        if k < |prompt| { assert text[k] == prompt[k]; } else { assert t[k] == s[k - |prompt|]; }
      }
    }
    assert after[..|t|] == t;
  }

  lemma BufferRest(buf: seq<char>, prompt: seq<char>, l: Line)
    requires Holds(buf, Whole(prompt, l))
    ensures buf[|prompt|..|prompt| + |l.left| + |l.right|] == l.left + l.right
    ensures prompt + (l.left + l.right) == Whole(prompt, l) && NoNul(l.left + l.right)
  {
    var text, s := Whole(prompt, l), l.left + l.right;
    assert prompt + s == text;
    assert forall k :: 0 <= k < |s| ==> s[k] == text[|prompt| + k];
    assert buf[|prompt|..|text|] == text[|prompt|..] == l.left + l.right;
  }

  lemma WholeMoved(prompt: seq<char>, l: Line, n: nat)
    requires n <= |l.left| + |l.right|
    ensures Whole(prompt, MovedTo(l, n)) == Whole(prompt, l) && |MovedTo(l, n).left| == n
  {
    var s := l.left + l.right;
    assert prompt + s[..n] + s[n..] == prompt + s == prompt + l.left + l.right;
  }

  lemma TypedMoved(l: Line, c: char)
    ensures MovedTo(Line(l.left, [c] + l.right), |l.left| + 1) == Typed(l, c)
  {
    var s := l.left + ([c] + l.right);
    assert s[..|l.left| + 1] == l.left + [c] && s[|l.left| + 1..] == l.right;
  }

  /** Where the line is unchanged up to position `n`, the screen shows the new one that far. */
  lemma KeptShown(cells: S.Grid, origin: int, prompt: seq<char>, l: Line, l': Line, n: nat, width: nat)
    requires width > 0 && n <= |l.left| && n <= |l'.left| && l.left[..n] == l'.left[..n]
    requires S.Displays(cells, origin, Whole(prompt, l), width)
    ensures S.ShowsPrefix(cells, origin, Whole(prompt, l'), |prompt| + n, width)
  {
    var a, b := Whole(prompt, l), Whole(prompt, l');
    forall k: nat | k < |prompt| + n
      ensures a[k] == b[k]
    {
      if k >= |prompt| { assert a[k] == l.left[..n][k - |prompt|] == l'.left[..n][k - |prompt|] == b[k]; }
    }
    assert S.ShowsPrefix(cells, origin, a, |a|, width);
  }
}
