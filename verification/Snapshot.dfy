/** The tail of an engine snapshot: the secondary windows' tab sections, the terminal states
    and the extension records that let the format grow. */
module Snapshot {
  import opened Prelude

  // ---------------------------------------------------------------- extension records

  const MAX_EXTENSION := 4096
  /** Kinds 1 to 6 are known to this build. */
  const LAST_KIND := 6

  datatype Extension = Extension(kind: Byte, payload: Bytes)

  predicate Known(e: Extension) {
    1 <= e.kind <= LAST_KIND
  }

  predicate ValidExtensions(es: seq<Extension>) {
    forall e | e in es :: |e.payload| <= MAX_EXTENSION
  }

  function EncodeExtension(e: Extension): Bytes
    requires |e.payload| <= MAX_EXTENSION
  {
    [e.kind, |e.payload| % 256, |e.payload| / 256] + e.payload
  }

  function EncodeExtensions(es: seq<Extension>): Bytes
    requires ValidExtensions(es)
  {
    if es == [] then [] else EncodeExtension(es[0]) + EncodeExtensions(es[1..])
  }

  /** How one record changes what has been read; `read` decodes the payloads of known kinds. */
  function Apply<E>(previous: E, e: Extension, read: (E, Extension) -> Option<E>): Option<E> {
    if Known(e) then read(previous, e) else Some(previous)
  }

  /** The records one after another; a refused record refuses all of them. */
  function Fold<E>(start: E, es: seq<Extension>, read: (E, Extension) -> Option<E>): Option<E> {
    if es == [] then Some(start)
    else
      var next := Apply(start, es[0], read);
      if next.None? then None else Fold(next.value, es[1..], read)
  }

  function KnownOnly(es: seq<Extension>): seq<Extension> {
    if es == [] then []
    else if Known(es[0]) then [es[0]] + KnownOnly(es[1..])
    else KnownOnly(es[1..])
  }

  lemma {:induction false} FoldKnownOnly<E>(start: E, es: seq<Extension>, read: (E, Extension) -> Option<E>)
    ensures Fold(start, es, read) == Fold(start, KnownOnly(es), read)
  {
    if es != [] {
      var next := Apply(start, es[0], read);
      if Known(es[0]) {
        assert KnownOnly(es)[1..] == KnownOnly(es[1..]);
        if next.Some? {
          FoldKnownOnly(next.value, es[1..], read);
        }
      } else {
        FoldKnownOnly(start, es[1..], read);
      }
    }
  }

  /** Forward compatibility: record lists that agree on the known records, in order, read the
      same, whatever unknown records stand between them. */
  lemma UnknownRecordsIgnored<E>(start: E, es: seq<Extension>, es': seq<Extension>, read: (E, Extension) -> Option<E>)
    requires KnownOnly(es) == KnownOnly(es')
    ensures Fold(start, es, read) == Fold(start, es', read)
  {
    FoldKnownOnly(start, es, read);
    FoldKnownOnly(start, es', read);
  }

  /** Unknown records inserted at any record boundary are such a change. */
  lemma {:induction false} InsertUnknown(before: seq<Extension>, unknown: seq<Extension>, after: seq<Extension>)
    requires forall e | e in unknown :: !Known(e)
    ensures KnownOnly(before + unknown + after) == KnownOnly(before + after)
    decreases |before|, |unknown|
  {
    if before != [] {
      InsertUnknown(before[1..], unknown, after);
      assert (before + unknown + after)[1..] == before[1..] + unknown + after;
      assert (before + after)[1..] == before[1..] + after;
    } else if unknown != [] {
      InsertUnknown(before, unknown[1..], after);
      assert (before + unknown + after)[1..] == before + unknown[1..] + after;
    } else {
      assert before + unknown + after == before + after;
    }
  }

  lemma ExtensionPrefixFree(e: Extension, f: Extension, x: Bytes, y: Bytes)
    requires |e.payload| <= MAX_EXTENSION && |f.payload| <= MAX_EXTENSION
    requires EncodeExtension(e) + x == EncodeExtension(f) + y
    ensures e == f && x == y
  {
    ExtensionFits(e, x);
    ExtensionFits(f, y);
  }

  /** How a record lies at the front of the bytes. */
  lemma ExtensionFits(e: Extension, x: Bytes)
    requires |e.payload| <= MAX_EXTENSION
    ensures var b := EncodeExtension(e) + x;
            && |b| >= 3 + |e.payload|
            && b[0] == e.kind && b[1] as int + b[2] as int * 256 == |e.payload|
            && b[3..3 + |e.payload|] == e.payload && b[3 + |e.payload|..] == x
  {
    var b := EncodeExtension(e) + x;
    assert b == [e.kind, |e.payload| % 256, |e.payload| / 256] + (e.payload + x);
    assert b[3..] == e.payload + x;
  }

  /** Bytes that begin with the encoding of `done` can only be read as `done` and then more. */
  lemma {:induction false} ReadingBegins(done: seq<Extension>, es: seq<Extension>, x: Bytes)
    requires ValidExtensions(done) && ValidExtensions(es)
    requires EncodeExtensions(es) == EncodeExtensions(done) + x
    ensures done <= es && EncodeExtensions(es[|done|..]) == x
  {
    hide EncodeExtension;
    if done == [] {
      assert es[0..] == es;
    } else {
      var d, rest := done[0], EncodeExtensions(done[1..]) + x;
      ExtensionFits(d, rest);
      assert EncodeExtension(d) + rest == EncodeExtensions(es);
      ExtensionPrefixFree(es[0], d, EncodeExtensions(es[1..]), rest);
      ReadingBegins(done[1..], es[1..], x);
      assert es[|done|..] == es[1..][|done| - 1..];
    }
  }

  /** The bytes encode some list of records. */
  ghost predicate IsRecords(b: Bytes) {
    exists es :: ValidExtensions(es) && EncodeExtensions(es) == b
  }

  /** If the bytes are records, a whole record starts where the last one ended. */
  lemma ReadingGoesOn(b: Bytes, start: nat, at: nat, done: seq<Extension>)
    requires start <= at < |b| && ValidExtensions(done) && EncodeExtensions(done) == b[start..at]
    ensures IsRecords(b[start..]) ==>
              && at + 3 <= |b|
              && b[at + 1] as int + b[at + 2] as int * 256 <= MAX_EXTENSION
              && at + 3 + b[at + 1] as int + b[at + 2] as int * 256 <= |b|
  {
    hide EncodeExtension;
    if es :| ValidExtensions(es) && EncodeExtensions(es) == b[start..] {
      assert b[start..] == b[start..at] + b[at..];
      ReadingBegins(done, es, b[at..]);
      var rest := es[|done|..];
      assert rest[0] in es;
      ExtensionFits(rest[0], EncodeExtensions(rest[1..]));
    }
  }

  /** Once a leading part of the records is refused, every reading is. */
  lemma ReadingFails<E>(b: Bytes, start: nat, at: nat, none: E, done: seq<Extension>, read: (E, Extension) -> Option<E>)
    requires start <= at <= |b| && ValidExtensions(done) && EncodeExtensions(done) == b[start..at]
    requires Fold(none, done, read).None?
    ensures forall es | ValidExtensions(es) && EncodeExtensions(es) == b[start..] :: Fold(none, es, read).None?
  {
    forall es | ValidExtensions(es) && EncodeExtensions(es) == b[start..]
      ensures Fold(none, es, read).None?
    {
      assert b[start..] == b[start..at] + b[at..];
      ReadingBegins(done, es, b[at..]);
      FoldConcat(none, done, es[|done|..], read);
      assert es == done + es[|done|..];
    }
  }

  lemma ReadingEnds(done: seq<Extension>)
    requires ValidExtensions(done)
    ensures forall es | ValidExtensions(es) && EncodeExtensions(es) == EncodeExtensions(done) :: es == done
  {
    forall es | ValidExtensions(es) && EncodeExtensions(es) == EncodeExtensions(done)
      ensures es == done
    {
      assert EncodeExtensions(done) + [] == EncodeExtensions(done);
      ReadingBegins(done, es, []);
    }
  }

  /** What bytes mean: the fold over the one list of records they encode, if there is one. */
  ghost function Meaning<E>(b: Bytes, none: E, read: (E, Extension) -> Option<E>): Option<E> {
    if !IsRecords(b) then None
    else
      var es :| ValidExtensions(es) && EncodeExtensions(es) == b;
      Fold(none, es, read)
  }

  lemma MeaningOf<E>(es: seq<Extension>, none: E, read: (E, Extension) -> Option<E>)
    requires ValidExtensions(es)
    ensures Meaning(EncodeExtensions(es), none, read) == Fold(none, es, read)
  {
    hide Fold, EncodeExtensions;
    ReadingEnds(es);
  }

  /** Forward compatibility of the bytes themselves: with records of unknown kinds put in at any
      record boundary, a payload reads as it does without them, and is refused exactly if that is. */
  lemma ForwardCompatible<E>(before: seq<Extension>, unknown: seq<Extension>, after: seq<Extension>,
                             none: E, read: (E, Extension) -> Option<E>)
    requires ValidExtensions(before) && ValidExtensions(unknown) && ValidExtensions(after)
    requires forall e | e in unknown :: !Known(e)
    ensures Meaning(EncodeExtensions(before + unknown + after), none, read) ==
            Meaning(EncodeExtensions(before + after), none, read)
  {
    hide Fold, EncodeExtensions, Meaning, KnownOnly;
    MeaningOf(before + unknown + after, none, read);
    MeaningOf(before + after, none, read);
    InsertUnknown(before, unknown, after);
    UnknownRecordsIgnored(none, before + unknown + after, before + after, read);
  }

  /** A single record of a kind from 1 to 6 goes to its decoder, one of any other kind is passed
      over. */
  lemma OneRecord<E>(e: Extension, none: E, read: (E, Extension) -> Option<E>)
    requires |e.payload| <= MAX_EXTENSION
    ensures Meaning([e.kind, |e.payload| % 256, |e.payload| / 256] + e.payload, none, read) ==
            if e.kind in [1, 2, 3, 4, 5, 6] then read(none, e) else Some(none)
  {
    MeaningOf([e], none, read);
    assert [e][1..] == [] && EncodeExtensions([e]) == EncodeExtension(e) + [];
    assert EncodeExtension(e) + [] == EncodeExtension(e);
    assert Fold(none, [e], read) == Apply(none, e, read);
  }

  /** Reading is the fold over the records the bytes encode: if they encode a list of records,
      the result is that list's fold, and bytes that encode none are refused. */
  method ReadExtensions<E>(b: Bytes, start: nat, none: E, read: (E, Extension) -> Option<E>) returns (r: Option<E>)
    requires start <= |b|
    ensures r == Meaning(b[start..], none, read)
    ensures forall es | ValidExtensions(es) && EncodeExtensions(es) == b[start..] :: r == Fold(none, es, read)
    ensures r.Some? ==> IsRecords(b[start..])
  {
    hide Fold, EncodeExtension, EncodeExtensions;
    var result := none;
    var at := start;
    ghost var done: seq<Extension> := [];
    Nothing(b, start, none, read);
    while at < |b|
      invariant start <= at <= |b|
      invariant ValidExtensions(done) && EncodeExtensions(done) == b[start..at]
      invariant Fold(none, done, read) == Some(result)
    {
      ReadingGoesOn(b, start, at, done);
      if at + 3 > |b| {
        return None;
      }
      var kind := b[at];
      var length := b[at + 1] as int + b[at + 2] as int * 256;
      if length > MAX_EXTENSION || at + 3 + length > |b| {
        return None;
      }
      var e := Extension(kind, b[at + 3..at + 3 + length]);
      FoundHere(b, at, e);
      EncodeAppend(done, e);
      FoldAppend(none, done, e, read);
      assert b[start..at + 3 + length] == b[start..at] + b[at..at + 3 + length];
      var updated := Apply(result, e, read);
      if updated.None? {
        ReadingFails(b, start, at + 3 + length, none, done + [e], read);
        return None;
      }
      result := updated.value;
      done := done + [e];
      at := at + 3 + length;
    }
    assert b[start..at] == b[start..];
    ReadingEnds(done);
    return Some(result);
  }

  lemma Nothing<E>(b: Bytes, start: nat, none: E, read: (E, Extension) -> Option<E>)
    requires start <= |b|
    ensures EncodeExtensions([]) == b[start..start] && Fold(none, [], read) == Some(none)
  {
  }

  lemma FoundHere(b: Bytes, at: nat, e: Extension)
    requires |e.payload| <= MAX_EXTENSION && at + 3 + |e.payload| <= |b|
    requires e.kind == b[at] && |e.payload| == b[at + 1] as int + b[at + 2] as int * 256
    requires e.payload == b[at + 3..at + 3 + |e.payload|]
    ensures EncodeExtension(e) == b[at..at + 3 + |e.payload|]
  {
    assert |e.payload| % 256 == b[at + 1] && |e.payload| / 256 == b[at + 2];
  }

  lemma {:induction false} EncodeAppend(es: seq<Extension>, e: Extension)
    requires ValidExtensions(es) && |e.payload| <= MAX_EXTENSION
    ensures EncodeExtensions(es + [e]) == EncodeExtensions(es) + EncodeExtension(e)
  {
    hide EncodeExtension;
    if es == [] {
      assert es + [e] == [e] && [e][1..] == [];
    } else {
      EncodeAppend(es[1..], e);
      assert (es + [e])[1..] == es[1..] + [e];
      var p, q, r := EncodeExtension(es[0]), EncodeExtensions(es[1..]), EncodeExtension(e);
      assert p + (q + r) == (p + q) + r;
    }
  }

  lemma {:induction false} FoldConcat<E>(start: E, es: seq<Extension>, fs: seq<Extension>, read: (E, Extension) -> Option<E>)
    ensures Fold(start, es + fs, read) ==
            if Fold(start, es, read).None? then None else Fold(Fold(start, es, read).value, fs, read)
  {
    if es == [] {
      assert es + fs == fs;
    } else {
      assert (es + fs)[1..] == es[1..] + fs;
      var next := Apply(start, es[0], read);
      if next.Some? {
        FoldConcat(next.value, es[1..], fs, read);
      }
    }
  }

  lemma FoldAppend<E>(start: E, es: seq<Extension>, e: Extension, read: (E, Extension) -> Option<E>)
    ensures Fold(start, es + [e], read) ==
            if Fold(start, es, read).None? then None else Apply(Fold(start, es, read).value, e, read)
  {
    FoldConcat(start, es, [e], read);
    assert [e][1..] == [];
  }

  // ---------------------------------------------------------------- tab sections

  datatype Tab = Tab(id: U32, index: Byte, title: Bytes, cwd: Bytes, selected: bool, attention: bool)

  function ReadTab(b: Bytes, at: nat, index: Byte, selected: Byte): (r: Option<Tab>)
    ensures r.Some? ==> at + TabBytes(r.value) <= |b|
  {
    if at + 7 > |b| then None
    else if ReadU32(b, at) < 1 then None
    else
      var titleEnd := at + 7 + b[at + 5];
      var cwdEnd := titleEnd + b[at + 6];
      if cwdEnd > |b| then None
      else Some(Tab(ReadU32(b, at), index, b[at + 7..titleEnd], b[titleEnd..cwdEnd], index == selected, b[at + 4] != 0))
  }

  /** The bytes one tab record takes up. */
  function TabBytes(t: Tab): nat {
    7 + |t.title| + |t.cwd|
  }

  function TabsBytes(tabs: seq<Tab>): nat {
    if tabs == [] then 0 else TabsBytes(tabs[..|tabs| - 1]) + TabBytes(tabs[|tabs| - 1])
  }

  /** Tabs lie one after another from `start`, the i-th read with index i. */
  ghost predicate TabsLie(b: Bytes, start: nat, tabs: seq<Tab>, selected: Byte) {
    |tabs| <= 255 &&
    (tabs == [] ||
     var n := |tabs| - 1;
     TabsLie(b, start, tabs[..n], selected) && ReadTab(b, start + TabsBytes(tabs[..n]), n, selected) == Some(tabs[n]))
  }

  lemma {:induction false} TabsPrefix(b: Bytes, start: nat, tabs: seq<Tab>, selected: Byte, k: nat)
    requires TabsLie(b, start, tabs, selected) && k <= |tabs|
    ensures TabsLie(b, start, tabs[..k], selected)
  {
    var n := |tabs| - 1;
    if k == |tabs| {
      assert tabs[..k] == tabs;
    } else {
      TabsPrefix(b, start, tabs[..n], selected, k);
      assert tabs[..n][..k] == tabs[..k];
    }
  }

  lemma {:induction false} TabsUnique(b: Bytes, start: nat, ts: seq<Tab>, us: seq<Tab>, selected: Byte)
    requires TabsLie(b, start, ts, selected) && TabsLie(b, start, us, selected) && |ts| == |us|
    ensures ts == us
  {
    hide ReadTab, TabsBytes;
    if ts != [] {
      var n := |ts| - 1;
      TabsUnique(b, start, ts[..n], us[..n], selected);
      assert Some(ts[n]) == Some(us[n]);
      hide TabsLie;
      assert ts == ts[..n] + [ts[n]] && us == us[..n] + [us[n]];
    }
  }

  lemma TabsLast(b: Bytes, start: nat, tabs: seq<Tab>, selected: Byte, k: nat)
    requires TabsLie(b, start, tabs, selected) && k < |tabs|
    ensures ReadTab(b, start + TabsBytes(tabs[..k]), k, selected) == Some(tabs[k])
  {
    hide ReadTab, TabsBytes;
    TabsPrefix(b, start, tabs, selected, k + 1);
    assert tabs[..k + 1][..k] == tabs[..k];
  }

  /** Any longer run of tabs that lies there goes on with the tab read here. */
  lemma TabNext(b: Bytes, start: nat, tabs: seq<Tab>, longer: seq<Tab>, selected: Byte)
    requires TabsLie(b, start, tabs, selected) && TabsLie(b, start, longer, selected) && |tabs| < |longer|
    ensures ReadTab(b, start + TabsBytes(tabs), |tabs|, selected) == Some(longer[|tabs|])
  {
    hide ReadTab, TabsBytes, TabsLie;
    TabsPrefix(b, start, longer, selected, |tabs|);
    TabsUnique(b, start, tabs, longer[..|tabs|], selected);
    TabsLast(b, start, longer, selected, |tabs|);
  }

  datatype TabRecords = TabRecords(tabs: seq<Tab>, at: nat)

  /** That many tabs back to back, and where the last one ends; refused only if the bytes hold
      fewer. */
  method ReadTabs(b: Bytes, start: nat, count: Byte, selected: Byte) returns (r: Option<TabRecords>)
    ensures r.Some? ==>
              && |r.value.tabs| == count && TabsLie(b, start, r.value.tabs, selected)
              && r.value.at == start + TabsBytes(r.value.tabs)
    ensures r.None? ==> forall tabs | |tabs| == count :: !TabsLie(b, start, tabs, selected)
  {
    hide ReadTab;
    var tabs: seq<Tab> := [];
    var at := start;
    for index := 0 to count
      invariant |tabs| == index && TabsLie(b, start, tabs, selected)
      invariant at == start + TabsBytes(tabs)
    {
      forall ts | |ts| == count && TabsLie(b, start, ts, selected)
        ensures ReadTab(b, at, index, selected) == Some(ts[index])
      {
        TabNext(b, start, tabs, ts, selected);
      }
      var tab := ReadTab(b, at, index, selected);
      if tab.None? {
        return None;
      }
      assert (tabs + [tab.value])[..index] == tabs;
      tabs := tabs + [tab.value];
      at := at + TabBytes(tab.value);
    }
    return Some(TabRecords(tabs, at));
  }

  datatype Window = Window(index: Byte, selectedTab: Byte, runStart: Byte, runCount: Byte, tabWidth: nat, tabs: seq<Tab>)

  predicate ValidRun(count: Byte, selected: Byte, first: Byte, shown: Byte) {
    !(selected >= count && count != 0) && first as int + shown as int <= count
  }

  /** The header at `at` is the window's, and its tabs lie behind it. */
  ghost predicate WindowLies(b: Bytes, at: nat, w: Window) {
    && at + 7 <= |b|
    && w.index == b[at] && 1 <= w.index <= 4
    && |w.tabs| == b[at + 1] && w.selectedTab == b[at + 2] && w.runStart == b[at + 3] && w.runCount == b[at + 4]
    && ValidRun(b[at + 1], w.selectedTab, w.runStart, w.runCount)
    && w.tabWidth == b[at + 5] as int + b[at + 6] as int * 256
    && TabsLie(b, at + 7, w.tabs, w.selectedTab)
  }

  method ReadWindow(b: Bytes, at: nat) returns (r: Option<Window>)
    ensures r.Some? ==> WindowLies(b, at, r.value)
    ensures r.None? ==> forall w :: !WindowLies(b, at, w)
  {
    if at + 7 > |b| {
      return None;
    }
    var index, count, selected, first, shown := b[at], b[at + 1], b[at + 2], b[at + 3], b[at + 4];
    var width := b[at + 5] as int + b[at + 6] as int * 256;
    if !(1 <= index <= 4) {
      return None;
    }
    if !ValidRun(count, selected, first, shown) {
      return None;
    }
    var section := ReadTabs(b, at + 7, count, selected);
    if section.None? {
      return None;
    }
    return Some(Window(index, selected, first, shown, width, section.value.tabs));
  }

  function WindowsBytes(ws: seq<Window>): nat {
    if ws == [] then 0 else WindowsBytes(ws[..|ws| - 1]) + 7 + TabsBytes(ws[|ws| - 1].tabs)
  }

  /** Window sections lie one after another from `start`. */
  ghost predicate WindowsLie(b: Bytes, start: nat, ws: seq<Window>) {
    ws == [] ||
    var n := |ws| - 1;
    WindowsLie(b, start, ws[..n]) && WindowLies(b, start + WindowsBytes(ws[..n]), ws[n])
  }

  /** At most one window section lies at an offset, and it ends inside the bytes. */
  lemma WindowUnique(b: Bytes, at: nat, w: Window, v: Window)
    requires WindowLies(b, at, w) && WindowLies(b, at, v)
    ensures v == w
    ensures at + 7 + TabsBytes(w.tabs) <= |b|
  {
    TabsUnique(b, at + 7, v.tabs, w.tabs, w.selectedTab);
  }

  lemma {:induction false} WindowsPrefix(b: Bytes, start: nat, ws: seq<Window>, k: nat)
    requires WindowsLie(b, start, ws) && k <= |ws|
    ensures WindowsLie(b, start, ws[..k])
  {
    hide WindowLies;
    var n := |ws| - 1;
    if k == |ws| {
      assert ws[..k] == ws;
    } else {
      WindowsPrefix(b, start, ws[..n], k);
      assert ws[..n][..k] == ws[..k];
    }
  }

  lemma {:induction false} WindowsUnique(b: Bytes, start: nat, ws: seq<Window>, vs: seq<Window>)
    requires WindowsLie(b, start, ws) && WindowsLie(b, start, vs) && |ws| == |vs|
    ensures ws == vs
  {
    hide WindowLies, WindowsBytes;
    if ws != [] {
      var n := |ws| - 1;
      WindowsUnique(b, start, ws[..n], vs[..n]);
      WindowUnique(b, start + WindowsBytes(ws[..n]), ws[n], vs[n]);
      assert ws == ws[..n] + [ws[n]] && vs == vs[..n] + [vs[n]];
    }
  }

  lemma WindowNext(b: Bytes, start: nat, ws: seq<Window>, longer: seq<Window>)
    requires WindowsLie(b, start, ws) && WindowsLie(b, start, longer) && |ws| < |longer|
    ensures WindowLies(b, start + WindowsBytes(ws), longer[|ws|])
  {
    hide WindowLies, WindowsBytes;
    var k := |ws|;
    WindowsPrefix(b, start, longer, k);
    WindowsPrefix(b, start, longer, k + 1);
    WindowsUnique(b, start, ws, longer[..k]);
    assert longer[..k + 1][..k] == longer[..k];
  }

  datatype Secondary = Secondary(windows: seq<Window>, at: nat)

  /** The secondary section up to its trailer. The window reader does not report where it
      stopped, so the offset is recomputed from the tabs it returned; it is nevertheless the
      offset at which the tab reader ended, so sections neither overlap nor leave gaps. */
  method ReadWindows(b: Bytes, start: nat) returns (r: Option<Secondary>)
    ensures r.Some? ==>
              && start < |b| && |r.value.windows| == b[start] <= 4
              && WindowsLie(b, start + 1, r.value.windows)
              && r.value.at == start + 1 + WindowsBytes(r.value.windows) <= |b|
    ensures r.None? ==> start >= |b| || b[start] > 4 || forall ws | |ws| == b[start] :: !WindowsLie(b, start + 1, ws)
  {
    hide WindowLies;
    if start + 1 > |b| {
      return None;
    }
    var count := b[start];
    if count > 4 {
      return None;
    }
    var at := start + 1;
    var ws: seq<Window> := [];
    for slot := 0 to count
      invariant |ws| == slot && WindowsLie(b, start + 1, ws)
      invariant at == start + 1 + WindowsBytes(ws) <= |b|
    {
      forall vs | |vs| == count && WindowsLie(b, start + 1, vs)
        ensures WindowLies(b, at, vs[slot])
      {
        WindowNext(b, start + 1, ws, vs);
      }
      var section := ReadWindow(b, at);
      if section.None? {
        return None;
      }
      var w := section.value;
      WindowUnique(b, at, w, w);
      assert (ws + [w])[..slot] == ws;
      ws := ws + [w];
      at := SkipWindow(at, w);
    }
    return Some(Secondary(ws, at));
  }

  /** Past a window's header and, tab by tab, its tabs. */
  method SkipWindow(start: nat, w: Window) returns (at: nat)
    ensures at == start + 7 + TabsBytes(w.tabs)
  {
    at := start + 7;
    for i := 0 to |w.tabs|
      invariant at == start + 7 + TabsBytes(w.tabs[..i])
    {
      assert w.tabs[..i + 1][..i] == w.tabs[..i];
      at := at + TabBytes(w.tabs[i]);
    }
    assert w.tabs[..|w.tabs|] == w.tabs;
  }

  // ---------------------------------------------------------------- the trailer

  datatype Trailer<E> = Trailer(terminalStates: Bytes, extensions: E)

  /** An older snapshot ends here; a newer one carries five terminal states and extensions. */
  method ReadTrailer<E>(b: Bytes, at: nat, none: E, read: (E, Extension) -> Option<E>) returns (r: Option<Trailer<E>>)
    requires at <= |b|
    ensures at == |b| ==> r == Some(Trailer([0, 0, 0, 0, 0], none))
    ensures r.Some? && at < |b| ==>
              && at + 5 <= |b| && r.value.terminalStates == b[at..at + 5]
              && (forall i | at <= i < at + 5 :: b[i] <= 7)
              && IsRecords(b[at + 5..])
    ensures at + 5 <= |b| && (forall i | at <= i < at + 5 :: b[i] <= 7) ==>
              forall es | ValidExtensions(es) && EncodeExtensions(es) == b[at + 5..] ::
                match Fold(none, es, read)
                case None => r.None?
                case Some(x) => r == Some(Trailer(b[at..at + 5], x))
  {
    hide Fold, EncodeExtensions;
    if at == |b| {
      return Some(Trailer([0, 0, 0, 0, 0], none));
    }
    if at + 5 > |b| {
      return None;
    }
    var states := b[at..at + 5];
    for i := at to at + 5
      invariant forall k | at <= k < i :: b[k] <= 7
    {
      if b[i] > 7 {
        return None;
      }
    }
    var extensions := ReadExtensions(b, at + 5, none, read);
    if extensions.None? {
      return None;
    }
    return Some(Trailer(states, extensions.value));
  }
}
