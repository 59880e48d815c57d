/** What the bytes of a snapshot's tab and window sections mean: the sections the readers accept are
    exactly the encodings of fitting tabs and windows, so reading undoes writing. */
module SnapshotEncoding {
  import opened Prelude
  import opened Snapshot

  /** `x` stands in `b` at an offset. */
  predicate At(b: Bytes, at: nat, x: Bytes) {
    at + |x| <= |b| && b[at..at + |x|] == x
  }

  lemma AtSplit(b: Bytes, at: nat, x: Bytes, y: Bytes)
    ensures At(b, at, x + y) <==> At(b, at, x) && At(b, at + |x|, y)
  {
    if at + |x + y| <= |b| {
      var z := b[at..at + |x + y|];
      assert z[..|x|] == b[at..at + |x|] && z[|x|..] == b[at + |x|..at + |x| + |y|];
      assert (x + y)[..|x|] == x && (x + y)[|x|..] == y;
      assert z == z[..|x|] + z[|x|..];
    }
  }

  // ---------------------------------------------------------------- tabs

  /** A tab that a section can carry at position `index`. */
  predicate TabFits(t: Tab, index: nat, selected: Byte) {
    && t.id >= 1 && |t.title| <= 255 && |t.cwd| <= 255
    && t.index == index && (t.selected <==> index == selected)
  }

  function TabHead(t: Tab, flag: Byte): Bytes
    requires |t.title| <= 255 && |t.cwd| <= 255
  {
    LittleEndian(t.id) + [flag, |t.title|, |t.cwd|]
  }

  /** Any flag but zero says that the tab wants attention. */
  function EncodeTab(t: Tab, flag: Byte): (b: Bytes)
    requires |t.title| <= 255 && |t.cwd| <= 255
    ensures |b| == TabBytes(t)
  {
    TabHead(t, flag) + t.title + t.cwd
  }

  lemma TabParts(b: Bytes, at: nat, t: Tab, flag: Byte)
    requires |t.title| <= 255 && |t.cwd| <= 255
    ensures At(b, at, EncodeTab(t, flag)) <==>
              && At(b, at, LittleEndian(t.id)) && At(b, at + 4, [flag, |t.title|, |t.cwd|])
              && At(b, at + 7, t.title) && At(b, at + 7 + |t.title|, t.cwd)
  {
    hide At, LittleEndian;
    AtSplit(b, at, TabHead(t, flag) + t.title, t.cwd);
    AtSplit(b, at, TabHead(t, flag), t.title);
    AtSplit(b, at, LittleEndian(t.id), [flag, |t.title|, |t.cwd|]);
  }

  lemma TabRead(b: Bytes, at: nat, index: Byte, selected: Byte, t: Tab) returns (flag: Byte)
    requires ReadTab(b, at, index, selected) == Some(t)
    ensures TabFits(t, index, selected) && (flag != 0 <==> t.attention)
    ensures At(b, at, EncodeTab(t, flag))
  {
    hide LittleEndian;
    flag := b[at + 4];
    WordBytes(b, at);
    TabParts(b, at, t, flag);
    assert b[at + 4..at + 7] == [flag, b[at + 5], b[at + 6]];
  }

  lemma TabWritten(b: Bytes, at: nat, index: Byte, selected: Byte, t: Tab, flag: Byte)
    requires TabFits(t, index, selected) && (flag != 0 <==> t.attention)
    requires At(b, at, EncodeTab(t, flag))
    ensures ReadTab(b, at, index, selected) == Some(t)
  {
    hide LittleEndian;
    TabParts(b, at, t, flag);
    WordRoundTrip(b, at, t.id);
    var mid := b[at + 4..at + 7];
    assert mid[0] == b[at + 4] && mid[1] == b[at + 5] && mid[2] == b[at + 6];
  }

  ghost predicate TabsFit(tabs: seq<Tab>, selected: Byte) {
    |tabs| <= 255 && forall i | 0 <= i < |tabs| :: TabFits(tabs[i], i, selected)
  }

  ghost predicate FlagsFit(tabs: seq<Tab>, flags: Bytes) {
    |flags| == |tabs| && forall i | 0 <= i < |tabs| :: flags[i] != 0 <==> tabs[i].attention
  }

  ghost function EncodeTabs(tabs: seq<Tab>, flags: Bytes, selected: Byte): (b: Bytes)
    requires TabsFit(tabs, selected) && |flags| == |tabs|
    ensures |b| == TabsBytes(tabs)
  {
    if tabs == [] then []
    else
      var n := |tabs| - 1;
      EncodeTabs(tabs[..n], flags[..n], selected) + EncodeTab(tabs[n], flags[n])
  }

  /** Tabs that are read from bytes are encoded there. */
  lemma {:induction false} TabsRead(b: Bytes, start: nat, tabs: seq<Tab>, selected: Byte) returns (flags: Bytes)
    requires start <= |b| && TabsLie(b, start, tabs, selected)
    ensures TabsFit(tabs, selected) && FlagsFit(tabs, flags)
    ensures At(b, start, EncodeTabs(tabs, flags, selected))
  {
    hide ReadTab, EncodeTab, TabBytes, TabsFit, FlagsFit;
    if tabs == [] {
      flags := [];
      NoTabs(selected);
    } else {
      var n := |tabs| - 1;
      var before := TabsRead(b, start, tabs[..n], selected);
      var flag := TabRead(b, start + TabsBytes(tabs[..n]), n, selected, tabs[n]);
      flags := before + [flag];
      OneTabMore(b, start, tabs, before, flag, selected);
    }
  }

  lemma NoTabs(selected: Byte)
    ensures TabsFit([], selected) && FlagsFit([], [])
  {
  }

  lemma OneTabMore(b: Bytes, start: nat, tabs: seq<Tab>, before: Bytes, flag: Byte, selected: Byte)
    requires 0 < |tabs| <= 255
    requires TabsFit(tabs[..|tabs| - 1], selected) && FlagsFit(tabs[..|tabs| - 1], before)
    requires TabFits(tabs[|tabs| - 1], |tabs| - 1, selected) && (flag != 0 <==> tabs[|tabs| - 1].attention)
    requires At(b, start, EncodeTabs(tabs[..|tabs| - 1], before, selected))
    requires At(b, start + TabsBytes(tabs[..|tabs| - 1]), EncodeTab(tabs[|tabs| - 1], flag))
    ensures TabsFit(tabs, selected) && FlagsFit(tabs, before + [flag])
    ensures At(b, start, EncodeTabs(tabs, before + [flag], selected))
  {
    hide EncodeTab, TabBytes, At;
    var n := |tabs| - 1;
    assert (before + [flag])[..n] == before;
    assert forall i | 0 <= i < n :: tabs[..n][i] == tabs[i];
    AtSplit(b, start, EncodeTabs(tabs[..n], before, selected), EncodeTab(tabs[n], flag));
  }

  /** Tabs that are encoded in bytes are read from there. */
  lemma {:induction false} TabsWritten(b: Bytes, start: nat, tabs: seq<Tab>, flags: Bytes, selected: Byte)
    requires TabsFit(tabs, selected) && FlagsFit(tabs, flags)
    requires At(b, start, EncodeTabs(tabs, flags, selected))
    ensures TabsLie(b, start, tabs, selected)
  {
    hide ReadTab, EncodeTab, TabBytes, At;
    if tabs != [] {
      var n := |tabs| - 1;
      AtSplit(b, start, EncodeTabs(tabs[..n], flags[..n], selected), EncodeTab(tabs[n], flags[n]));
      TabsWritten(b, start, tabs[..n], flags[..n], selected);
      TabWritten(b, start + TabsBytes(tabs[..n]), n, selected, tabs[n], flags[n]);
    }
  }

  // ---------------------------------------------------------------- windows

  ghost predicate WindowFits(w: Window) {
    && 1 <= w.index <= 4 && TabsFit(w.tabs, w.selectedTab)
    && (w.tabs == [] || w.selectedTab < |w.tabs|)
    && w.runStart as int + w.runCount as int <= |w.tabs|
    && w.tabWidth <= 0xFFFF
  }

  ghost function WindowHead(w: Window): Bytes
    requires WindowFits(w)
  {
    [w.index, |w.tabs|, w.selectedTab, w.runStart, w.runCount, w.tabWidth % 256, w.tabWidth / 256]
  }

  ghost function EncodeWindow(w: Window, flags: Bytes): (b: Bytes)
    requires WindowFits(w) && FlagsFit(w.tabs, flags)
    ensures |b| == 7 + TabsBytes(w.tabs)
  {
    WindowHead(w) + EncodeTabs(w.tabs, flags, w.selectedTab)
  }

  lemma WindowRead(b: Bytes, at: nat, w: Window) returns (flags: Bytes)
    requires WindowLies(b, at, w)
    ensures WindowFits(w) && FlagsFit(w.tabs, flags) && At(b, at, EncodeWindow(w, flags))
  {
    hide EncodeTabs, TabsFit, At, TabsLie, WindowHead;
    flags := TabsRead(b, at + 7, w.tabs, w.selectedTab);
    HeadRead(b, at, w);
    AtSplit(b, at, WindowHead(w), EncodeTabs(w.tabs, flags, w.selectedTab));
  }

  lemma HeadRead(b: Bytes, at: nat, w: Window)
    requires WindowLies(b, at, w) && TabsFit(w.tabs, w.selectedTab)
    ensures WindowFits(w) && At(b, at, WindowHead(w)) && |WindowHead(w)| == 7
  {
    hide TabsLie, TabsFit;
    assert w.tabWidth % 256 == b[at + 5] && w.tabWidth / 256 == b[at + 6];
    assert b[at..at + 7] == [b[at], b[at + 1], b[at + 2], b[at + 3], b[at + 4], b[at + 5], b[at + 6]];
  }

  lemma WindowWritten(b: Bytes, at: nat, w: Window, flags: Bytes)
    requires WindowFits(w) && FlagsFit(w.tabs, flags) && At(b, at, EncodeWindow(w, flags))
    ensures WindowLies(b, at, w)
  {
    AtSplit(b, at, WindowHead(w), EncodeTabs(w.tabs, flags, w.selectedTab));
    TabsWritten(b, at + 7, w.tabs, flags, w.selectedTab);
    hide EncodeTabs, TabsFit, FlagsFit, TabsLie;
    var head := b[at..at + 7];
    assert head[0] == b[at] && head[1] == b[at + 1] && head[2] == b[at + 2] && head[3] == b[at + 3];
    assert head[4] == b[at + 4] && head[5] == b[at + 5] && head[6] == b[at + 6];
  }

  ghost predicate WindowsFit(ws: seq<Window>) {
    forall i | 0 <= i < |ws| :: WindowFits(ws[i])
  }

  ghost predicate AllFlagsFit(ws: seq<Window>, flags: seq<Bytes>) {
    |flags| == |ws| && forall i | 0 <= i < |ws| :: FlagsFit(ws[i].tabs, flags[i])
  }

  ghost function EncodeWindows(ws: seq<Window>, flags: seq<Bytes>): (b: Bytes)
    requires WindowsFit(ws) && AllFlagsFit(ws, flags)
    ensures |b| == WindowsBytes(ws)
  {
    if ws == [] then []
    else
      var n := |ws| - 1;
      EncodeWindows(ws[..n], flags[..n]) + EncodeWindow(ws[n], flags[n])
  }

  lemma {:induction false} WindowsRead(b: Bytes, start: nat, ws: seq<Window>) returns (flags: seq<Bytes>)
    requires start <= |b| && WindowsLie(b, start, ws)
    ensures WindowsFit(ws) && AllFlagsFit(ws, flags) && At(b, start, EncodeWindows(ws, flags))
  {
    hide WindowLies, EncodeWindow, TabsBytes, FlagsFit, WindowFits;
    if ws == [] {
      flags := [];
    } else {
      var n := |ws| - 1;
      var before := WindowsRead(b, start, ws[..n]);
      var last := WindowRead(b, start + WindowsBytes(ws[..n]), ws[n]);
      flags := before + [last];
      assert flags[..n] == before;
      assert forall i | 0 <= i < n :: ws[..n][i] == ws[i];
      AtSplit(b, start, EncodeWindows(ws[..n], before), EncodeWindow(ws[n], last));
    }
  }

  lemma {:induction false} WindowsWritten(b: Bytes, start: nat, ws: seq<Window>, flags: seq<Bytes>)
    requires WindowsFit(ws) && AllFlagsFit(ws, flags) && At(b, start, EncodeWindows(ws, flags))
    ensures WindowsLie(b, start, ws)
  {
    hide WindowLies, EncodeWindow, TabsBytes, FlagsFit, WindowFits, At;
    if ws != [] {
      var n := |ws| - 1;
      AtSplit(b, start, EncodeWindows(ws[..n], flags[..n]), EncodeWindow(ws[n], flags[n]));
      WindowsWritten(b, start, ws[..n], flags[..n]);
      WindowWritten(b, start + WindowsBytes(ws[..n]), ws[n], flags[n]);
    }
  }

  // ---------------------------------------------------------------- the section

  /** The secondary section of these windows: their number, then each of them. */
  ghost predicate Encodes(b: Bytes, start: nat, ws: seq<Window>, flags: seq<Bytes>) {
    && |ws| <= 4 && WindowsFit(ws) && AllFlagsFit(ws, flags)
    && start < |b| && b[start] == |ws| && At(b, start + 1, EncodeWindows(ws, flags))
  }

  /** Reading undoes writing: wherever a section of fitting windows stands, with whatever flags and
      whatever behind it, exactly those windows and the offset of what is behind come out; and
      whatever comes out stands there. */
  method Reread(b: Bytes, start: nat, ghost ws: seq<Window>, ghost flags: seq<Bytes>)
    returns (r: Option<Secondary>, ghost found: seq<Bytes>)
    ensures Encodes(b, start, ws, flags) ==> r == Some(Secondary(ws, start + 1 + WindowsBytes(ws)))
    ensures r.Some? ==> Encodes(b, start, r.value.windows, found)
  {
    hide WindowsLie, EncodeWindows, WindowsFit, AllFlagsFit, At;
    r := ReadWindows(b, start);
    found := [];
    if r.Some? {
      found := WindowsRead(b, start + 1, r.value.windows);
    }
    if Encodes(b, start, ws, flags) {
      WindowsWritten(b, start + 1, ws, flags);
      if r.Some? {
        WindowsUnique(b, start + 1, r.value.windows, ws);
      }
    }
  }
}
