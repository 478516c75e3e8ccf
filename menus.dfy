/** The two screens before a round: the player-name prompt and the difficulty menu. */
module Menus {

  // ---------------------------------------------------------------------------
  // Difficulty tiers

  /** A menu entry: its label, base ticks per second and score multiplier. */
  datatype Difficulty = Difficulty(name: string, fps: int, scoreMultiplier: int)

  const BaseFps: int := 10

  const Easy: Difficulty := Difficulty("Easy", BaseFps, 1)
  const Normal: Difficulty := Difficulty("Normal", BaseFps + 5, 2)
  const Hard: Difficulty := Difficulty("Hard", BaseFps + 10, 3)
  /** The fourth entry opens the leaderboard; it is never handed to a round. */
  const HighScoresItem: Difficulty := Difficulty("High Scores", BaseFps, 0)

  const Options: seq<Difficulty> := [Easy, Normal, Hard, HighScoresItem]

  /** The entry on which the cursor starts. */
  const InitialSelection: int := 1
  const HighScoresIndex: int := 3

  /** A tier a round can be played at. */
  predicate IsPlayable(d: Difficulty) {
    d == Easy || d == Normal || d == Hard
  }

  lemma PlayableTiers(d: Difficulty)
    requires IsPlayable(d)
    ensures d.fps >= BaseFps > 0 && 1 <= d.scoreMultiplier <= 3
    ensures d != HighScoresItem
  {
  }

  // ---------------------------------------------------------------------------
  // Difficulty cursor

  /** Cursor moves wrap around the four entries; `%` is the game's floored modulo here
      because the divisor is positive. */
  function CursorUp(selected: int): (r: int)
    ensures 0 <= r < |Options|
    ensures 0 <= selected < |Options| ==> CursorDown(r) == selected
  {
    (selected - 1) % |Options|
  }

  function CursorDown(selected: int): (r: int)
    ensures 0 <= r < |Options|
  {
    (selected + 1) % |Options|
  }

  lemma {:induction false} CursorDownThenUp(selected: int)
    requires 0 <= selected < |Options|
    ensures CursorUp(CursorDown(selected)) == selected
  {
    if selected < |Options| - 1 {
      assert CursorDown(selected) == selected + 1;
    } else {
      assert CursorDown(selected) == 0;
    }
  }

  /** A key on the difficulty screen. `Select` carries what the leaderboard screen reports
      if this key opens it (true: the player dismissed it with a key; false: the window
      was closed); the flag is ignored on the three playable entries. */
  datatype MenuEvent = MenuQuit | KeyUp | KeyDown | Select(viewerContinues: bool) | MenuOtherKey

  datatype MenuResult =
    | Chosen(difficulty: Difficulty)
    | MenuClosed
    | MenuWaiting(selected: int)

  /** Where the cursor ends after a run of keys in which nothing was chosen. */
  function CursorAfter(selected: int, events: seq<MenuEvent>): (r: int)
    ensures 0 <= selected < |Options| ==> 0 <= r < |Options|
    decreases |events|
  {
    if events == [] then selected
    else
      var last := events[|events| - 1];
      var before := CursorAfter(selected, events[..|events| - 1]);
      match last
      case KeyUp => CursorUp(before)
      case KeyDown => CursorDown(before)
      case _ => before
  }

  function CountKey(events: seq<MenuEvent>, key: MenuEvent): nat
    decreases |events|
  {
    if events == [] then 0
    else CountKey(events[..|events| - 1], key) + (if events[|events| - 1] == key then 1 else 0)
  }

  /** The cursor is the start plus the number of down keys minus the number of up keys,
      modulo the number of entries. */
  lemma {:induction false} CursorIsNetCount(selected: int, events: seq<MenuEvent>)
    requires 0 <= selected < |Options|
    ensures CursorAfter(selected, events)
         == (selected + CountKey(events, KeyDown) - CountKey(events, KeyUp)) % |Options|
    decreases |events|
  {
    if events != [] {
      var init := events[..|events| - 1];
      CursorIsNetCount(selected, init);
      var n := selected + CountKey(init, KeyDown) - CountKey(init, KeyUp);
      ModShift(n, events[|events| - 1]);
    }
  }

  lemma {:induction false} ModShift(n: int, e: MenuEvent)
    ensures e == KeyUp ==> (n % 4 - 1) % 4 == (n - 1) % 4
    ensures e == KeyDown ==> (n % 4 + 1) % 4 == (n + 1) % 4
  {
    var q := n / 4;
    var m := n % 4;
    assert n == 4 * q + m;
    assert (n - 1) % 4 == (m - 1 + 4 * q) % 4;
    assert (n + 1) % 4 == (m + 1 + 4 * q) % 4;
    ModAddMultiple(m - 1, q);
    ModAddMultiple(m + 1, q);
  }

  lemma {:induction false} ModAddMultiple(a: int, q: int)
    ensures (a + 4 * q) % 4 == a % 4
  {
    var r := a % 4;
    var p := a / 4;
    assert a == 4 * p + r;
    assert a + 4 * q == 4 * (p + q) + r;
  }

  /** The difficulty screen: Up and Down move the cursor, Return picks the entry under it;
      Return on the leaderboard entry opens that screen and carries on with the pending
      keys, or gives up when the window was closed there. */
  method SelectDifficulty(events: seq<MenuEvent>) returns (r: MenuResult)
    ensures r == MenuOutcome(InitialSelection, events)
    ensures r.Chosen? ==> IsPlayable(r.difficulty)
    ensures r.Chosen? ==> exists k :: 0 <= k < |events| && events[k].Select?
                                    && CursorAfter(InitialSelection, events[..k]) < HighScoresIndex
                                    && r.difficulty == Options[CursorAfter(InitialSelection, events[..k])]
                                    && Passed(events, k)
    ensures r.MenuWaiting? ==> r.selected == CursorAfter(InitialSelection, events)
    ensures r.MenuWaiting? ==> Passed(events, |events|)
    ensures r == MenuClosed ==> exists k :: 0 <= k < |events| && Passed(events, k)
                                    && (events[k] == MenuQuit
                                        || (events[k] == Select(false)
                                            && CursorAfter(InitialSelection, events[..k]) == HighScoresIndex))
  {
    var selected := InitialSelection;
    var i := 0;
    while i < |events|
      invariant 0 <= i <= |events|
      invariant selected == CursorAfter(InitialSelection, events[..i])
      invariant 0 <= selected < |Options|
      invariant Passed(events, i)
      invariant MenuOutcome(InitialSelection, events) == MenuOutcome(selected, events[i..])
    {
      assert events[..i + 1][..i] == events[..i];
      assert events[i..][1..] == events[i + 1..];
      match events[i] {
      case MenuQuit =>
        return MenuClosed;
      case KeyUp =>
        selected := CursorUp(selected);
      case KeyDown =>
        selected := CursorDown(selected);
      case Select(viewerContinues) =>
        if selected == HighScoresIndex {
          if !viewerContinues {
            return MenuClosed;
          }
        } else {
          return Chosen(Options[selected]);
        }
      case MenuOtherKey =>
      }
      i := i + 1;
    }
    assert events[..i] == events;
    return MenuWaiting(selected);
  }

  /** What the difficulty screen makes of a run of keys, read from the first key on:
      the first Quit closes it, the first Return on a playable entry picks that entry,
      Return on the leaderboard entry closes it or carries on as the viewer decides. */
  function MenuOutcome(selected: int, events: seq<MenuEvent>): (r: MenuResult)
    requires 0 <= selected < |Options|
    ensures r.MenuWaiting? ==> 0 <= r.selected < |Options|
    decreases |events|
  {
    if events == [] then MenuWaiting(selected)
    else match events[0]
      case MenuQuit => MenuClosed
      case KeyUp => MenuOutcome(CursorUp(selected), events[1..])
      case KeyDown => MenuOutcome(CursorDown(selected), events[1..])
      case Select(viewerContinues) =>
        if selected != HighScoresIndex then Chosen(Options[selected])
        else if viewerContinues then MenuOutcome(selected, events[1..])
        else MenuClosed
      case MenuOtherKey => MenuOutcome(selected, events[1..])
  }

  /** None of the first n keys ends the screen: there is no Quit among them, and every
      Return among them was on the leaderboard entry with the viewer carrying on. */
  ghost predicate Passed(events: seq<MenuEvent>, n: int)
    requires 0 <= n <= |events|
  {
    forall k :: 0 <= k < n ==>
      events[k] != MenuQuit
      && (events[k].Select? ==> CursorAfter(InitialSelection, events[..k]) == HighScoresIndex
                                && events[k].viewerContinues)
  }

  // ---------------------------------------------------------------------------
  // Player-name prompt

  const MaxNameLength: int := 15
  const DefaultName: string := "Player"

  /** Letters and digits; the game uses Unicode `isalnum`, of which this is the ASCII part. */
  predicate IsAlnum(c: char): (r: bool)
    ensures r ==> !IsSpace(c)
  {
    ('a' <= c <= 'z') || ('A' <= c <= 'Z') || ('0' <= c <= '9')
  }

  predicate AllAlnum(s: string) {
    forall i :: 0 <= i < |s| ==> IsAlnum(s[i])
  }

  /** The ASCII characters Python counts as whitespace: tab, line feed, vertical tab, form
      feed, carriage return, the four separators 0x1C to 0x1F, and the space. */
  predicate IsSpace(c: char) {
    ('\t' <= c <= '\r') || ('\U{001C}' <= c <= '\U{001F}') || c == ' '
  }

  predicate AllSpace(s: string) {
    forall i :: 0 <= i < |s| ==> IsSpace(s[i])
  }

  /** Leading whitespace removed: what is left is a suffix of s that does not start with a
      space. */
  function TrimLeft(s: string): (r: string)
    ensures |r| <= |s| && r == s[|s| - |r|..]
    ensures r == [] || !IsSpace(r[0])
    decreases |s|
  {
    if s != [] && IsSpace(s[0]) then TrimLeft(s[1..]) else s
  }

  /** Everything TrimLeft cuts off is whitespace. */
  lemma {:induction false} TrimLeftCutsSpaces(s: string)
    ensures forall i :: 0 <= i < |s| - |TrimLeft(s)| ==> IsSpace(s[i])
    decreases |s|
  {
    if s != [] && IsSpace(s[0]) {
      TrimLeftCutsSpaces(s[1..]);
      assert forall i :: 1 <= i < |s| - |TrimLeft(s)| ==> s[i] == s[1..][i - 1];
    }
  }

  /** Trailing whitespace removed, symmetrically. */
  function TrimRight(s: string): (r: string)
    ensures |r| <= |s| && r == s[..|r|]
    ensures r == [] || !IsSpace(r[|r| - 1])
    decreases |s|
  {
    if s != [] && IsSpace(s[|s| - 1]) then TrimRight(s[..|s| - 1]) else s
  }

  /** Everything TrimRight cuts off is whitespace. */
  lemma {:induction false} TrimRightCutsSpaces(s: string)
    ensures forall i :: |TrimRight(s)| <= i < |s| ==> IsSpace(s[i])
    decreases |s|
  {
    if s != [] && IsSpace(s[|s| - 1]) {
      TrimRightCutsSpaces(s[..|s| - 1]);
      assert forall i :: |TrimRight(s)| <= i < |s| - 1 ==> s[i] == s[..|s| - 1][i];
    }
  }

  /** Whitespace removed at both ends: what is left neither starts nor ends with a space. */
  function Strip(s: string): (r: string)
    ensures |r| <= |s|
    ensures r == [] || (!IsSpace(r[0]) && !IsSpace(r[|r| - 1]))
  {
    TrimRight(TrimLeft(s))
  }

  /** Strip keeps one contiguous stretch of s and everything it cuts off on either side
      is whitespace. */
  lemma {:induction false} StripCutsSpaces(s: string) returns (i: int)
    ensures 0 <= i <= |s| - |Strip(s)| && Strip(s) == s[i..i + |Strip(s)|]
    ensures forall j :: 0 <= j < i ==> IsSpace(s[j])
    ensures forall j :: i + |Strip(s)| <= j < |s| ==> IsSpace(s[j])
  {
    var l := TrimLeft(s);
    i := |s| - |l|;
    TrimLeftCutsSpaces(s);
    TrimRightCutsSpaces(l);
    var r := Strip(s);
    assert r == l[..|r|];
    assert r == s[i..i + |r|];
    assert forall j :: i + |r| <= j < |s| ==> s[j] == l[j - i];
  }

  lemma {:induction false} TrimLeftAllSpace(s: string)
    requires AllSpace(s)
    ensures TrimLeft(s) == []
    decreases |s|
  {
    if s != [] {
      var tail := s[1..];
      forall i | 0 <= i < |tail| ensures IsSpace(tail[i]) {
        assert tail[i] == s[i + 1];
      }
      TrimLeftAllSpace(tail);
    }
  }

  /** A name is blank exactly when it is all whitespace. */
  lemma {:induction false} StripBlankIff(s: string)
    ensures Strip(s) == [] <==> AllSpace(s)
  {
    var l := TrimLeft(s);
    if AllSpace(s) {
      TrimLeftAllSpace(s);
    }
    if Strip(s) == [] {
      TrimRightCutsSpaces(l);
      assert l == [];
      TrimLeftCutsSpaces(s);
    }
  }

  /** Names typed at the prompt have nothing to strip. */
  lemma {:induction false} StripAlnum(s: string)
    requires AllAlnum(s)
    ensures Strip(s) == s
  {
    assert s != [] ==> IsAlnum(s[0]) && IsAlnum(s[|s| - 1]);
  }

  datatype NameKey = Return | Backspace | OtherKey

  /** A keyboard event at the prompt: the key and the character it types. */
  datatype NameEvent = NameQuit | Press(key: NameKey, unicode: char)

  datatype NameResult =
    | NameEntered(name: string)
    | NameClosed
    | NameWaiting(buffer: string)

  /** Return is taken only when the stripped name is not empty, which by StripBlankIff is
      when the name is not all whitespace. */
  predicate Accepts(name: string, key: NameKey): (r: bool)
    ensures r ==> key == Return && name != []
  {
    key == Return && !AllSpace(name)
  }

  /** On a buffer of letters and digits, as the prompt's buffer always is, Return is
      taken exactly when something has been typed. */
  lemma AcceptsTypedName(name: string, key: NameKey)
    requires AllAlnum(name)
    ensures Accepts(name, key) <==> key == Return && name != []
  {
    if name != [] {
      assert IsAlnum(name[0]);
    }
  }

  /** Accepts is the prompt's test on the stripped name, written without the strip. */
  lemma {:induction false} AcceptsIsStripTest(name: string, key: NameKey)
    ensures Accepts(name, key) <==> key == Return && Strip(name) != []
  {
    StripBlankIff(name);
  }

  /** The buffer after one key that is not an accepted Return: Backspace drops the last
      character (nothing on an empty buffer), and any other key appends the character it
      types when that is a letter or digit and fewer than 15 are typed. */
  function EditName(name: string, key: NameKey, unicode: char): (r: string)
    ensures key == Backspace && name == [] ==> r == []
    ensures key == Backspace && name != [] ==> r + [name[|name| - 1]] == name
    ensures key != Backspace && IsAlnum(unicode) && |name| < MaxNameLength ==> r == name + [unicode]
    ensures key != Backspace && |r| > |name| ==> r == name + [unicode] && IsAlnum(unicode) && |name| < MaxNameLength
    ensures key != Backspace && !(IsAlnum(unicode) && |name| < MaxNameLength) ==> r == name
    ensures |name| <= MaxNameLength ==> |r| <= MaxNameLength
    ensures AllAlnum(name) ==> AllAlnum(r)
  {
    if key == Backspace then
      (if name == [] then name else name[..|name| - 1])
    else if |name| < MaxNameLength && IsAlnum(unicode) then
      name + [unicode]
    else
      name
  }

  /** Backspace undoes a typed character. */
  lemma {:induction false} BackspaceUndoesTyping(name: string, key: NameKey, c: char, d: char)
    requires key != Backspace && |name| < MaxNameLength && IsAlnum(c)
    ensures EditName(EditName(name, key, c), Backspace, d) == name
  {
    assert EditName(name, key, c) == name + [c];
  }

  predicate HasQuit(batch: seq<NameEvent>) {
    NameQuit in batch
  }

  ghost predicate HasReturn(batch: seq<NameEvent>) {
    exists k :: 0 <= k < |batch| && batch[k].Press? && batch[k].key == Return
  }

  /** The prompt's state within one poll of the queue: the buffer, and whether a Return
      has been accepted in this poll. */
  datatype Prompt = Prompt(buffer: string, accepted: bool)

  /** One key at the prompt: a Return on a buffer that is not blank is remembered, any
      other key edits the buffer. */
  function Key(p: Prompt, key: NameKey, unicode: char): (r: Prompt)
    ensures p.accepted ==> r.accepted
    ensures r.accepted && !p.accepted ==> key == Return && r.buffer == p.buffer
  {
    if Accepts(p.buffer, key) then Prompt(p.buffer, true)
    else Prompt(EditName(p.buffer, key, unicode), p.accepted)
  }

  /** The state after a run of keys of one poll, fed to the prompt in order; a quit
      changes nothing here, the poll that holds one closes the prompt. */
  function Feed(p: Prompt, events: seq<NameEvent>): (r: Prompt)
    ensures |r.buffer| <= |p.buffer| + |events|
    decreases |events|
  {
    if events == [] then p
    else
      var before := Feed(p, events[..|events| - 1]);
      match events[|events| - 1]
      case NameQuit => before
      case Press(key, unicode) => Key(before, key, unicode)
  }

  lemma FeedStep(p: Prompt, events: seq<NameEvent>, i: int)
    requires 0 <= i < |events| && events[i].Press?
    ensures Feed(p, events[..i + 1]) == Key(Feed(p, events[..i]), events[i].key, events[i].unicode)
  {
    assert events[..i + 1][..i] == events[..i];
  }

  /** Whatever keys are typed, the buffer stays a run of at most 15 letters and digits. */
  lemma {:induction false} FeedKeepsNameValid(p: Prompt, events: seq<NameEvent>)
    requires |p.buffer| <= MaxNameLength && AllAlnum(p.buffer)
    ensures |Feed(p, events).buffer| <= MaxNameLength && AllAlnum(Feed(p, events).buffer)
    decreases |events|
  {
    if events != [] {
      FeedKeepsNameValid(p, events[..|events| - 1]);
    }
  }

  /** A poll accepts the name exactly when one of its Returns met a buffer that was not
      blank at that point. */
  lemma {:induction false} FeedAcceptsIff(p: Prompt, events: seq<NameEvent>)
    ensures Feed(p, events).accepted
        <==> p.accepted || exists k :: 0 <= k < |events| && events[k].Press?
                                      && Accepts(Feed(p, events[..k]).buffer, events[k].key)
  {
    if Feed(p, events).accepted && !p.accepted {
      var k := FeedAcceptedWitness(p, events);
    }
    if p.accepted {
      FeedKeepsAccepted(p, events);
    }
    forall k | 0 <= k < |events| && events[k].Press? && Accepts(Feed(p, events[..k]).buffer, events[k].key)
      ensures Feed(p, events).accepted
    {
      FeedAcceptedAt(p, events, k);
    }
  }

  /** Once accepted, a poll stays accepted. */
  lemma {:induction false} FeedKeepsAccepted(p: Prompt, events: seq<NameEvent>)
    requires p.accepted
    ensures Feed(p, events).accepted
    decreases |events|
  {
    if events != [] {
      FeedKeepsAccepted(p, events[..|events| - 1]);
    }
  }

  /** A Return that meets a buffer that is not blank leaves the poll accepted. */
  lemma {:induction false} FeedAcceptedAt(p: Prompt, events: seq<NameEvent>, k: int)
    requires 0 <= k < |events| && events[k].Press?
    requires Accepts(Feed(p, events[..k]).buffer, events[k].key)
    ensures Feed(p, events).accepted
    decreases |events|
  {
    var n := |events| - 1;
    var init := events[..n];
    var before := Feed(p, init);
    if k < n {
      assert before.accepted by {
        assert init[..k] == events[..k] && init[k] == events[k];
        FeedAcceptedAt(p, init, k);
      }
      FeedLastKeepsAccepted(p, events);
    } else {
      assert Accepts(before.buffer, events[n].key) by {
        assert events[..k] == init;
      }
      assert Feed(p, events) == Key(before, events[n].key, events[n].unicode);
    }
  }

  lemma FeedLastKeepsAccepted(p: Prompt, events: seq<NameEvent>)
    requires events != [] && Feed(p, events[..|events| - 1]).accepted
    ensures Feed(p, events).accepted
  {
  }

  /** A poll that starts unaccepted and ends accepted has a Return that met a buffer that
      was not blank at that point. */
  lemma {:induction false} FeedAcceptedWitness(p: Prompt, events: seq<NameEvent>) returns (k: int)
    requires !p.accepted && Feed(p, events).accepted
    ensures 0 <= k < |events| && events[k].Press?
    ensures Accepts(Feed(p, events[..k]).buffer, events[k].key)
    decreases |events|
  {
    var n := |events| - 1;
    var init := events[..n];
    if Feed(p, init).accepted {
      k := FeedAcceptedWitness(p, init);
      assert init[..k] == events[..k] && init[k] == events[k];
    } else {
      k := n;
      assert events[..k] == init;
    }
  }

  /** The events of one poll of the queue, applied in order. A quit stops at once; an
      accepted Return is remembered and the remaining events are still applied. */
  method ApplyBatch(name: string, batch: seq<NameEvent>) returns (name': string, accepted: bool, closed: bool)
    requires |name| <= MaxNameLength && AllAlnum(name)
    ensures |name'| <= MaxNameLength && AllAlnum(name')
    ensures closed <==> HasQuit(batch)
    ensures accepted ==> HasReturn(batch)
    ensures !closed ==> Prompt(name', accepted) == Feed(Prompt(name, false), batch)
  {
    name', accepted, closed := name, false, false;
    var i := 0;
    while i < |batch|
      invariant 0 <= i <= |batch|
      invariant NameQuit !in batch[..i]
      invariant Prompt(name', accepted) == Feed(Prompt(name, false), batch[..i])
    {
      match batch[i] {
      case NameQuit =>
        closed := true;
        FeedKeepsNameValid(Prompt(name, false), batch[..i]);
        if accepted {
          ghost var k := FeedAcceptedWitness(Prompt(name, false), batch[..i]);
          assert batch[k] == batch[..i][k];
        }
        assert batch[i] == NameQuit;
        return;
      case Press(key, unicode) =>
        assert batch[..i + 1] == batch[..i] + [batch[i]];
        FeedStep(Prompt(name, false), batch, i);
        if Accepts(name', key) {
          accepted := true;
        } else {
          name' := EditName(name', key, unicode);
        }
      }
      i := i + 1;
    }
    assert batch[..i] == batch;
    FeedKeepsNameValid(Prompt(name, false), batch);
    if accepted {
      ghost var k := FeedAcceptedWitness(Prompt(name, false), batch);
    }
  }

  /** The name the prompt hands on: the stripped buffer, or the default name when that is
      blank. */
  function FinalName(name: string): (r: string)
    requires |name| <= MaxNameLength && AllAlnum(name)
    ensures r == (if name == [] then DefaultName else name)
  {
    StripAlnum(name);
    var stripped := Strip(name);
    if stripped != [] then stripped else DefaultName
  }

  /** What the prompt makes of a run of polls, read from the first poll on: a poll that
      holds a quit closes the prompt, the first poll that accepts a name ends it with that
      poll's final buffer, and otherwise the buffer carries into the next poll. */
  function PromptOutcome(name: string, batches: seq<seq<NameEvent>>): (r: NameResult)
    requires |name| <= MaxNameLength && AllAlnum(name)
    ensures r.NameWaiting? ==> |r.buffer| <= MaxNameLength && AllAlnum(r.buffer)
    decreases |batches|
  {
    if batches == [] then NameWaiting(name)
    else if HasQuit(batches[0]) then NameClosed
    else
      FeedKeepsNameValid(Prompt(name, false), batches[0]);
      var p := Feed(Prompt(name, false), batches[0]);
      if p.accepted then NameEntered(FinalName(p.buffer))
      else PromptOutcome(p.buffer, batches[1..])
  }

  /** What a run of polls can lead to: a name entered is the default name or one of 1 to
      15 letters and digits, and came with a Return; a prompt still waiting has seen no
      quit; a prompt closed has. */
  lemma {:induction false} PromptOutcomeCases(name: string, batches: seq<seq<NameEvent>>)
    requires |name| <= MaxNameLength && AllAlnum(name)
    ensures var r := PromptOutcome(name, batches);
      && (r.NameEntered? ==> (r.name == DefaultName || (0 < |r.name| <= MaxNameLength && AllAlnum(r.name))))
      && (r.NameEntered? ==> exists b :: 0 <= b < |batches| && HasReturn(batches[b]))
      && (r.NameWaiting? ==> forall b :: 0 <= b < |batches| ==> !HasQuit(batches[b]))
      && (r.NameClosed? ==> exists b :: 0 <= b < |batches| && HasQuit(batches[b]))
    decreases |batches|
  {
    if batches != [] && !HasQuit(batches[0]) {
      FeedKeepsNameValid(Prompt(name, false), batches[0]);
      var p := Feed(Prompt(name, false), batches[0]);
      if p.accepted {
        var k := FeedAcceptedWitness(Prompt(name, false), batches[0]);
      } else {
        var rest := batches[1..];
        PromptOutcomeCases(p.buffer, rest);
        assert forall b :: 1 <= b < |batches| ==> batches[b] == rest[b - 1];
      }
    }
  }

  /** The prompt loop. Events come in batches, one per poll of the event queue; an accepted
      Return ends the prompt only after the rest of its batch has been applied, so a later
      Backspace in that batch can still empty the buffer, and then the default name is used. */
  method GetPlayerName(batches: seq<seq<NameEvent>>) returns (r: NameResult)
    ensures r == PromptOutcome("", batches)
    ensures r.NameEntered? ==> (r.name == DefaultName
                                || (0 < |r.name| <= MaxNameLength && AllAlnum(r.name)))
    ensures r.NameEntered? ==> exists b :: 0 <= b < |batches| && HasReturn(batches[b])
    ensures r.NameWaiting? ==> |r.buffer| <= MaxNameLength && AllAlnum(r.buffer)
    ensures r.NameWaiting? ==> forall b :: 0 <= b < |batches| ==> !HasQuit(batches[b])
    ensures r.NameClosed? ==> exists b :: 0 <= b < |batches| && HasQuit(batches[b])
  {
    PromptOutcomeCases("", batches);
    var name := "";
    var active := true;
    var b := 0;
    while active && b < |batches|
      invariant 0 <= b <= |batches|
      invariant |name| <= MaxNameLength && AllAlnum(name)
      invariant active ==> PromptOutcome("", batches) == PromptOutcome(name, batches[b..])
      invariant !active ==> PromptOutcome("", batches) == NameEntered(FinalName(name))
      decreases |batches| - b
    {
      assert batches[b..][0] == batches[b] && batches[b..][1..] == batches[b + 1..];
      var accepted, closed;
      name, accepted, closed := ApplyBatch(name, batches[b]);
      if closed {
        return NameClosed;
      }
      if accepted {
        active := false;
      }
      b := b + 1;
    }
    if active {
      return NameWaiting(name);
    }
    r := NameEntered(FinalName(name));
  }
}
