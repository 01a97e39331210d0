/**
 * The minifilter: the command port that edits the blocklist and the pre-create callback that
 * consults it. Values first (messages, opens, whole histories), then the driver object that
 * is proved to move through exactly those values.
 */
module Driver {
  import opened Sets
  import opened Paths
  import opened Blocklists

  const COMMAND_SIZE := 1044   // ULONG type plus 520 two-byte characters
  const REPLY_SIZE := 12
  const TYPE_SIZE := 4

  const MSG_ADD_BLOCK := 1
  const MSG_REMOVE_BLOCK := 2
  const MSG_QUERY_STATUS := 3

  const FILE_EXECUTE: bv32 := 0x0000_0020
  const FILE_GENERIC_EXECUTE: bv32 := 0x0012_00A0   // READ_CONTROL, READ_ATTRIBUTES, EXECUTE, SYNCHRONIZE
  const FILE_COMPLETE_IF_OPLOCKED: bv32 := 0x0000_0100

  datatype NtStatus = StatusSuccess | InvalidParameter | BufferTooSmall | InsufficientResources

  type PathField = s: seq<WChar> | |s| == MAX_PATH witness seq(MAX_PATH, _ => 0)

  /** A message as it arrives at the port; `memory` says whether the pool can serve one more entry. */
  datatype Message = Message(present: bool, inputLength: nat, kind: nat, path: PathField,
                             replyPresent: bool, replyLength: nat, memory: bool)

  /** A file open; no name when the name could not be resolved. */
  datatype Open = Open(kernelMode: bool, access: bv32, options: bv32, name: Name)

  /**
   * A resolved name is counted: `memory` is everything that can be read from its buffer on, of
   * which the first `length` characters are the name. Nothing promises a NUL after them.
   */
  datatype Name = Unresolved | Resolved(memory: seq<WChar>, length: nat)

  datatype State = State(blocked: set<Path>, denials: nat)

  /** The port overwrites the last character before it reads the path. */
  function Sealed(path: PathField): PathField {
    path[MAX_PATH - 1 := NUL]
  }

  lemma SealedFits(path: PathField)
    ensures Readable(Sealed(path)) && InLimit(Sealed(path))
  {
    assert Sealed(path)[MAX_PATH - 1] == NUL;
  }

  predicate Edits(m: Message, kind: nat) {
    m.present && COMMAND_SIZE <= m.inputLength && m.kind == kind
  }

  function Outcome(s: State, m: Message): NtStatus {
    if !m.present || m.inputLength < TYPE_SIZE then InvalidParameter
    else if m.kind == MSG_ADD_BLOCK then
      if m.inputLength < COMMAND_SIZE then BufferTooSmall
      else if Key(Sealed(m.path)) in s.blocked || m.memory then StatusSuccess
      else InsufficientResources
    else if m.kind == MSG_REMOVE_BLOCK then
      if m.inputLength < COMMAND_SIZE then BufferTooSmall else StatusSuccess
    else if m.kind == MSG_QUERY_STATUS then
      if !m.replyPresent || m.replyLength < REPLY_SIZE then BufferTooSmall else StatusSuccess
    else InvalidParameter
  }

  function Apply(s: State, m: Message): State {
    if Edits(m, MSG_ADD_BLOCK) && m.memory then s.(blocked := s.blocked + {Key(Sealed(m.path))})
    else if Edits(m, MSG_REMOVE_BLOCK) then s.(blocked := s.blocked - {Key(Sealed(m.path))})
    else s
  }

  /** An open that gets as far as the lookup. */
  predicate Asks(o: Open) {
    && !o.kernelMode
    && o.access & (FILE_EXECUTE | FILE_GENERIC_EXECUTE) != 0
    && o.options & FILE_COMPLETE_IF_OPLOCKED == 0
    && o.name.Resolved?
  }

  /** The lookup reads the buffer up to its first NUL, and gives up when there is none in range. */
  predicate Screened(o: Open) {
    Asks(o) && Readable(o.name.memory) && InLimit(o.name.memory)
  }

  /** The lookup reads past the end of memory. */
  predicate Faults(s: State, o: Open) {
    Asks(o) && !Readable(o.name.memory) && |s.blocked| % COUNT_RANGE != 0
  }

  predicate Denied(s: State, o: Open) {
    Screened(o) && Key(o.name.memory) in s.blocked && |s.blocked| % COUNT_RANGE != 0
  }

  datatype Verdict = Allow | Deny | Fault

  /** A sequence of messages. */
  function ApplyAll(s: State, ms: seq<Message>): State {
    if ms == [] then s else Apply(ApplyAll(s, ms[..|ms| - 1]), ms[|ms| - 1])
  }

  /** What the callback answers when it saw the count in one state and looked the name up in another. */
  function Judge(before: State, after: State, o: Open): Verdict {
    if |before.blocked| % COUNT_RANGE == 0 || !Asks(o) then Allow
    else if !Readable(o.name.memory) then Fault
    else if InLimit(o.name.memory) && Key(o.name.memory) in after.blocked then Deny
    else Allow
  }

  /** The verdict of one moment. */
  function VerdictIn(s: State, o: Open): Verdict {
    if Faults(s, o) then Fault else if Denied(s, o) then Deny else Allow
  }

  /**
   * With any messages in between, the answer is the verdict of the first moment or of the second,
   * unless the count has come round to zero at the second with the name blocked.
   */
  lemma VerdictInBetween(before: State, after: State, o: Open)
    ensures Judge(before, before, o) == VerdictIn(before, o)
    ensures Judge(before, after, o) in {VerdictIn(before, o), VerdictIn(after, o)} <==>
              !(Judge(before, after, o) == Deny && !Denied(before, o) && |after.blocked| % COUNT_RANGE == 0)
  {
  }

  datatype Event = Command(m: Message) | Opened(o: Open)

  function Step(s: State, e: Event): State {
    match e
    case Command(m) => Apply(s, m)
    case Opened(o) => if Denied(s, o) then s.(denials := (s.denials + 1) % COUNT_RANGE) else s
  }

  function Run(events: seq<Event>): State {
    if events == [] then State({}, 0)
    else Step(Run(events[..|events| - 1]), events[|events| - 1])
  }

  // ---------- What a history says about one path ----------

  datatype Filing = Never | LastAdded | LastRemoved

  /** The last message in a history that took effect on a key; adds that found no memory did not. */
  function LastFiling(events: seq<Event>, key: Path): Filing {
    if events == [] then Never
    else
      var e := events[|events| - 1];
      if e.Command? && Edits(e.m, MSG_ADD_BLOCK) && e.m.memory && Key(Sealed(e.m.path)) == key then LastAdded
      else if e.Command? && Edits(e.m, MSG_REMOVE_BLOCK) && Key(Sealed(e.m.path)) == key then LastRemoved
      else LastFiling(events[..|events| - 1], key)
  }

  lemma {:induction false} BlockedIsLastAdded(events: seq<Event>, key: Path)
    ensures key in Run(events).blocked <==> LastFiling(events, key) == LastAdded
  {
    if events != [] {
      BlockedIsLastAdded(events[..|events| - 1], key);
    }
  }

  lemma {:induction false} BlockedBound(events: seq<Event>)
    ensures |Run(events).blocked| <= |events|
  {
    if events != [] {
      var before := Run(events[..|events| - 1]).blocked;
      BlockedBound(events[..|events| - 1]);
      var e := events[|events| - 1];
      if e.Command? && Edits(e.m, MSG_REMOVE_BLOCK) {
        SubsetSize(before - {Key(Sealed(e.m.path))}, before);
      }
    }
  }

  /**
   * The law of the driver, for every history and every open: denied exactly when the open is
   * screened and the last effective message about its path added it -- unless the 32-bit count
   * has come round to zero.
   */
  lemma DenialLaw(events: seq<Event>, o: Open)
    ensures Denied(Run(events), o) <==>
              && Screened(o)
              && LastFiling(events, Key(o.name.memory)) == LastAdded
              && |Run(events).blocked| % COUNT_RANGE != 0
    ensures |events| < COUNT_RANGE ==>
              (Denied(Run(events), o) <==> Screened(o) && LastFiling(events, Key(o.name.memory)) == LastAdded)
  {
    if Screened(o) {
      BlockedIsLastAdded(events, Key(o.name.memory));
      BlockedBound(events);
      if Key(o.name.memory) in Run(events).blocked {
        SubsetSize({Key(o.name.memory)}, Run(events).blocked);
      }
    }
  }

  // ---------- The law in the fields of the messages and the open ----------

  predicate NoNul(text: seq<WChar>) {
    forall i :: 0 <= i < |text| ==> text[i] != NUL
  }

  /** The command carries a text: so far into its path field, where it ends or the last place is. */
  predicate Carries(m: Message, text: seq<WChar>) {
    && |text| < 520
    && (forall i :: 0 <= i < |text| ==> m.path[i] != 0 && SameChar(m.path[i], text[i]))
    && (|text| == 519 || m.path[|text|] == 0)
  }

  /** A complete command of a kind about a text. */
  predicate About(e: Event, kind: nat, text: seq<WChar>) {
    e.Command? && e.m.present && 1044 <= e.m.inputLength && e.m.kind == kind && Carries(e.m, text)
  }

  /** An add of the text that found memory, and no removal after it. */
  predicate AddedAt(events: seq<Event>, i: nat, text: seq<WChar>)
    requires i < |events|
  {
    && About(events[i], 1, text) && events[i].m.memory
    && forall j :: i < j < |events| ==> !About(events[j], 2, text)
  }

  predicate StillAdded(events: seq<Event>, text: seq<WChar>) {
    exists i :: 0 <= i < |events| && AddedAt(events, i, text)
  }

  /** The buffer ends its text with its first NUL, in reach of the lookup. */
  ghost predicate Names(memory: seq<WChar>, text: seq<WChar>) {
    |text| < 520 && |text| < |memory| && memory[..|text|] == text && NoNul(text) && memory[|text|] == 0
  }

  function Commands(ms: seq<Message>): seq<Event> {
    seq(|ms|, i requires 0 <= i < |ms| => Command(ms[i]))
  }

  lemma CarriesIff(m: Message, text: seq<WChar>)
    requires NoNul(text) && |text| < MAX_PATH
    ensures Key(Sealed(m.path)) == Folded(text) <==> Carries(m, text)
  {
    var sealed := Sealed(m.path);
    SealedFits(m.path);
    FoldedIff(Text(sealed), text);
    if Carries(m, text) {
      TextIs(sealed, |text|);
      assert SameText(Text(sealed), text);
    }
    if SameText(Text(sealed), text) {
      forall i | 0 <= i < |text| ensures m.path[i] != 0 && SameChar(m.path[i], text[i]) {
        assert SameChar(Text(sealed)[i], text[i]);
      }
    }
  }

  /** One more event: an add settles it, a removal undoes it, anything else leaves it. */
  lemma StillAddedNext(events: seq<Event>, e: Event, text: seq<WChar>)
    ensures StillAdded(events + [e], text) <==>
              (About(e, 1, text) && e.m.memory) || (StillAdded(events, text) && !About(e, 2, text))
  {
    var longer, n := events + [e], |events|;
    if About(e, 1, text) && e.m.memory {
      assert AddedAt(longer, n, text);
    }
    forall i | 0 <= i < n ensures AddedAt(longer, i, text) <==> AddedAt(events, i, text) && !About(e, 2, text) {
      assert longer[i] == events[i] && longer[n] == e;
      if AddedAt(longer, i, text) {
        assert forall j :: i < j < n ==> longer[j] == events[j];
      }
    }
  }

  lemma {:induction false} StillAddedIff(events: seq<Event>, text: seq<WChar>)
    requires NoNul(text) && |text| < MAX_PATH
    ensures LastFiling(events, Folded(text)) == LastAdded <==> StillAdded(events, text)
  {
    if events != [] {
      var n := |events| - 1;
      StillAddedIff(events[..n], text);
      StillAddedNext(events[..n], events[n], text);
      assert events == events[..n] + [events[n]];
      if events[n].Command? {
        CarriesIff(events[n].m, text);
      }
    }
  }

  lemma {:induction false} RunCommands(events: seq<Event>, ms: seq<Message>)
    ensures Run(events + Commands(ms)) == ApplyAll(Run(events), ms)
  {
    if ms == [] {
      assert events + Commands(ms) == events;
    } else {
      var n := |ms| - 1;
      RunCommands(events, ms[..n]);
      assert events + Commands(ms) == events + Commands(ms[..n]) + [Command(ms[n])];
    }
  }

  /** Readable and in limit is having a NUL in reach. */
  lemma NamesIff(memory: seq<WChar>)
    ensures Readable(memory) && InLimit(memory) <==> exists text :: Names(memory, text)
    ensures forall text :: Names(memory, text) ==> Text(memory) == text && Key(memory) == Folded(text)
  {
    forall text | Names(memory, text) ensures Text(memory) == text {
      assert forall i :: 0 <= i < |text| ==> memory[i] == text[i];
      TextIs(memory, |text|);
    }
    if Readable(memory) && InLimit(memory) {
      assert Names(memory, Text(memory));
    }
  }

  /**
   * The law of the driver: the callback denies an open exactly when a program asks for anything in
   * the mask, not in an oplock break, by a name whose text memory ends in reach, that text was added
   * and not removed since -- up to the lookup -- and the 32-bit count was not zero before.
   */
  lemma CallbackLaw(events: seq<Event>, ms: seq<Message>, o: Open)
    ensures Judge(Run(events), ApplyAll(Run(events), ms), o) == Deny <==>
              && !o.kernelMode && o.access & 0x0012_00A0 != 0 && o.options & 0x100 == 0 && o.name.Resolved?
              && (exists text :: Names(o.name.memory, text) && StillAdded(events + Commands(ms), text))
              && |Run(events).blocked| % 0x1_0000_0000 != 0
    ensures Judge(Run(events), ApplyAll(Run(events), ms), o) == Fault <==>
              && !o.kernelMode && o.access & 0x0012_00A0 != 0 && o.options & 0x100 == 0 && o.name.Resolved?
              && |o.name.memory| < 520 && NoNul(o.name.memory)
              && |Run(events).blocked| % 0x1_0000_0000 != 0
  {
    AsksIff(o);
    RunCommands(events, ms);
    if Asks(o) {
      NamesIff(o.name.memory);
      forall text | Names(o.name.memory, text)
        ensures Key(o.name.memory) in ApplyAll(Run(events), ms).blocked <==> StillAdded(events + Commands(ms), text)
      {
        BlockedIsLastAdded(events + Commands(ms), Folded(text));
        StillAddedIff(events + Commands(ms), text);
      }
      UnreadableIff(o.name.memory);
    }
  }

  lemma UnreadableIff(memory: seq<WChar>)
    ensures !Readable(memory) <==> |memory| < 520 && NoNul(memory)
  {
  }

  /**
   * The access test is wider than execute intent: the generic mask also holds SYNCHRONIZE,
   * READ_CONTROL and FILE_READ_ATTRIBUTES, so opens without execute access are looked up too.
   */
  lemma AsksIff(o: Open)
    ensures Asks(o) <==> !o.kernelMode && o.access & 0x0012_00A0 != 0 && o.options & 0x100 == 0 && o.name.Resolved?
  {
    assert o.access & (FILE_EXECUTE | FILE_GENERIC_EXECUTE) == o.access & 0x0012_00A0;
  }

  /** What a status tells the service about its message. */
  lemma StatusLaw(s: State, m: Message, text: seq<WChar>)
    requires NoNul(text) && Carries(m, text)
    ensures Outcome(s, m) == InvalidParameter <==> !m.present || m.inputLength < 4 || m.kind !in {1, 2, 3}
    ensures Outcome(s, m) == BufferTooSmall <==>
              && m.present && 4 <= m.inputLength
              && ((m.kind in {1, 2} && m.inputLength < 1044) || (m.kind == 3 && (!m.replyPresent || m.replyLength < 12)))
    ensures Outcome(s, m) == InsufficientResources <==>
              About(Command(m), 1, text) && !m.memory && Folded(text) !in s.blocked
    ensures Outcome(s, m) == StatusSuccess && m.kind == 1 ==> Apply(s, m) == s.(blocked := s.blocked + {Folded(text)})
    ensures Outcome(s, m) == StatusSuccess && m.kind == 2 ==> Apply(s, m) == s.(blocked := s.blocked - {Folded(text)})
    ensures Outcome(s, m) != StatusSuccess || m.kind == 3 ==> Apply(s, m) == s
  {
    CarriesIff(m, text);
    if Folded(text) in s.blocked {
      assert s.blocked + {Folded(text)} == s.blocked;
    }
  }

  // ---------- The name that was opened ----------

  /** The key of the counted name, whatever lies behind it in memory. */
  function NameKey(o: Open): Path
    requires o.name.Resolved? && o.name.length <= |o.name.memory|
  {
    Folded(o.name.memory[..o.name.length])
  }

  /** The message that adds a text. */
  function AddOf(text: seq<WChar>): Message
    requires |text| < MAX_PATH
  {
    Message(true, COMMAND_SIZE, MSG_ADD_BLOCK, text + seq(MAX_PATH - |text|, _ => NUL), false, 0, true)
  }

  lemma AddOfKey(text: seq<WChar>)
    requires |text| < MAX_PATH && NoNul(text)
    ensures Key(Sealed(AddOf(text).path)) == Folded(text)
  {
    var sealed := Sealed(AddOf(text).path);
    TextIs(sealed, |text|);
    assert sealed[..|text|] == text;
  }

  /** After adding one text, that text is filed and nothing else. */
  lemma AddedAlone(text: seq<WChar>, key: Path)
    requires |text| < MAX_PATH && NoNul(text)
    ensures LastFiling([Command(AddOf(text))], key) == if key == Folded(text) then LastAdded else Never
  {
    AddOfKey(text);
    assert [Command(AddOf(text))][..0] == [];
  }

  /** Keys from the port are in limit, so an over-long one is never filed. */
  lemma {:induction false} LongNeverFiled(events: seq<Event>, key: Path)
    requires MAX_PATH <= |key|
    ensures LastFiling(events, key) == Never
  {
    if events != [] {
      LongNeverFiled(events[..|events| - 1], key);
      var e := events[|events| - 1];
      if e.Command? {
        SealedFits(e.m.path);
      }
    }
  }

  /** The lookup reads outside the counted name exactly when the name is in limit and has no NUL in it. */
  lemma ReadsOutsideIff(o: Open)
    requires o.name.Resolved? && o.name.length <= |o.name.memory|
    ensures Reads(o.name.memory) > o.name.length <==> o.name.length < MAX_PATH && NoNul(o.name.memory[..o.name.length])
  {
    var memory, length := o.name.memory, o.name.length;
    if TextLen(memory) < length {
      assert memory[..length][TextLen(memory)] == NUL;
    }
  }

  /** The callback decides by the opened name, over every history the count can follow. */
  ghost predicate DecidesByName(o: Open)
    requires o.name.Resolved? && o.name.length <= |o.name.memory|
  {
    forall events {:trigger Run(events)} :: |events| < COUNT_RANGE ==>
      !Faults(Run(events), o) && (Denied(Run(events), o) <==> LastFiling(events, NameKey(o)) == LastAdded)
  }

  /** The first NUL from the buffer on ends the name, or there is none in range and the name is over-long; memory goes that far. */
  predicate Delimited(o: Open)
    requires o.name.Resolved?
  {
    Readable(o.name.memory) &&
    if o.name.length < MAX_PATH then TextLen(o.name.memory) == o.name.length else !InLimit(o.name.memory)
  }

  /** The law about the opened name, exactly: it holds if and only if memory delimits the name. */
  lemma OpenedNameLaw(o: Open)
    requires Asks(o) && o.name.length <= |o.name.memory|
    ensures DecidesByName(o) <==> Delimited(o)
  {
    if Delimited(o) {
      DelimitedDecides(o);
    } else {
      NotDelimited(o);
    }
  }

  lemma DelimitedDecides(o: Open)
    requires Asks(o) && o.name.length <= |o.name.memory| && Delimited(o)
    ensures DecidesByName(o)
  {
    forall events | |events| < COUNT_RANGE
      ensures !Faults(Run(events), o) && (Denied(Run(events), o) <==> LastFiling(events, NameKey(o)) == LastAdded)
    {
      if o.name.length < MAX_PATH {
        DenialLaw(events, o);
      } else {
        LongNeverFiled(events, NameKey(o));
      }
    }
  }

  /** With anything blocked, a lookup in memory that ends too early faults. */
  lemma UnreadableFaults(o: Open)
    requires Asks(o) && !Readable(o.name.memory)
    ensures Faults(Run([Command(AddOf([]))]), o)
  {
    var events := [Command(AddOf([]))];
    assert events[..0] == [];
    assert Run(events).blocked == {Key(Sealed(AddOf([]).path))};
  }

  /** Otherwise one message is enough to show it: the name is added but not denied, or another text is and the name is denied. */
  lemma NotDelimited(o: Open)
    requires Asks(o) && o.name.length <= |o.name.memory| && !Delimited(o)
    ensures !DecidesByName(o)
  {
    if !Readable(o.name.memory) {
      UnreadableFaults(o);
      return;
    }
    var memory, length := o.name.memory, o.name.length;
    var n := TextLen(memory);
    var text := if n < length then memory[..n] else memory[..length];
    var events := [Command(AddOf(text))];
    AddedAlone(text, NameKey(o));
    if Screened(o) {
      AddedAlone(text, Key(memory));
      DenialLaw(events, o);
    }
    assert Denied(Run(events), o) != (LastFiling(events, NameKey(o)) == LastAdded);
  }

  /** An instance: with a "B" behind it in memory, the name "\\A" is read as "\\AB" and missed. */
  lemma UnterminatedNameIsMisread()
    ensures var a, b: WChar := 'A' as int, 'B' as int;
            var slash: WChar := '\\' as int;
            var o := Open(false, FILE_EXECUTE, 0, Resolved([slash, a, b, NUL], 2));
            var events := [Command(AddOf([slash, a]))];
            Asks(o) && LastFiling(events, NameKey(o)) == LastAdded && !Denied(Run(events), o)
  {
    var a, b: WChar := 'A' as int, 'B' as int;
    var slash: WChar := '\\' as int;
    var memory: seq<WChar> := [slash, a, b, NUL];
    var o := Open(false, FILE_EXECUTE, 0, Resolved(memory, 2));
    assert memory[..2] == [slash, a];
    TextIs(memory, 3);
    AddedAlone([slash, a], NameKey(o));
    AddedAlone([slash, a], Key(memory));
    DenialLaw([Command(AddOf([slash, a]))], o);
  }

  // ---------- The count comes round ----------

  /** Different texts for different numbers, unchanged by folding. */
  function Numbered(i: nat): (t: seq<WChar>)
    requires i < COUNT_RANGE
    ensures |t| == 3 && NoNul(t) && Folded(t) == t
  {
    var t: seq<WChar> := [0x100 + i % 0x1000, 0x100 + i / 0x1000 % 0x1000, 0x100 + i / 0x100_0000];
    assert forall k :: 0 <= k < 3 ==> Fold(t[k]) == t[k];
    t
  }

  lemma Recomposed(i: nat)
    ensures i == 0x100_0000 * (i / 0x100_0000) + 0x1000 * (i / 0x1000 % 0x1000) + i % 0x1000
  {
    assert i / 0x1000 / 0x1000 == i / 0x100_0000;
  }

  lemma NumberedApart(i: nat, j: nat)
    requires i < COUNT_RANGE && j < COUNT_RANGE && Numbered(i) == Numbered(j)
    ensures i == j
  {
    assert forall k :: 0 <= k < 3 ==> Numbered(i)[k] == Numbered(j)[k];
    assert Numbered(i)[0] == Numbered(j)[0] && Numbered(i)[1] == Numbered(j)[1] && Numbered(i)[2] == Numbered(j)[2];
    Recomposed(i);
    Recomposed(j);
  }

  function Adds(n: nat): seq<Event>
    requires n <= COUNT_RANGE
  {
    if n == 0 then [] else Adds(n - 1) + [Command(AddOf(Numbered(n - 1)))]
  }

  lemma {:induction false} AddsBlocked(n: nat)
    requires n <= COUNT_RANGE
    ensures |Run(Adds(n)).blocked| == n
    ensures n > 0 ==> Numbered(0) in Run(Adds(n)).blocked
    ensures forall i {:trigger Numbered(i)} :: n <= i < COUNT_RANGE ==> Numbered(i) !in Run(Adds(n)).blocked
  {
    if n > 0 {
      AddsBlocked(n - 1);
      RunAdds(n);
      forall i: nat | n <= i < COUNT_RANGE ensures Numbered(i) !in Run(Adds(n)).blocked {
        if Numbered(i) == Numbered(n - 1) {
          NumberedApart(i, n - 1);
        }
      }
    }
  }

  lemma RunAdds(n: nat)
    requires 0 < n <= COUNT_RANGE
    ensures Run(Adds(n)).blocked == Run(Adds(n - 1)).blocked + {Numbered(n - 1)}
  {
    AddOfKey(Numbered(n - 1));
    assert Adds(n)[..|Adds(n)| - 1] == Adds(n - 1);
  }

  /** After 2^32 different additions the count reads zero and a path added last time round is not denied. */
  lemma CountComesRound(n: nat)
    requires n == COUNT_RANGE
    ensures var o := Open(false, FILE_EXECUTE, 0, Resolved(Numbered(0) + [NUL], 3));
            Screened(o) && LastFiling(Adds(n), NameKey(o)) == LastAdded && !Denied(Run(Adds(n)), o)
  {
    var memory := Numbered(0) + [NUL];
    TextIs(memory, 3);
    assert memory[..3] == Numbered(0);
    AddsBlocked(n);
    BlockedIsLastAdded(Adds(n), Numbered(0));
  }

  /** Where both can be read, spelling a path in another case or with the other slash never changes the verdict. */
  lemma SpellingIrrelevant(s: State, o: Open, name: seq<WChar>, length: nat)
    requires o.name.Resolved?
    requires SameText(Text(name), Text(o.name.memory))
    ensures Readable(name) && Readable(o.name.memory) ==> Denied(s, o.(name := Resolved(name, length))) == Denied(s, o)
  {
    KeyEquality(name, o.name.memory);
    assert TextLen(name) == |Text(name)| == TextLen(o.name.memory);
  }

  /** Adding a path and then removing any spelling of it restores the set when the path was not there. */
  lemma RemoveUndoesAdd(s: State, add: Message, remove: Message)
    requires Edits(add, MSG_ADD_BLOCK) && Edits(remove, MSG_REMOVE_BLOCK)
    requires Key(Sealed(add.path)) == Key(Sealed(remove.path))
    ensures Apply(Apply(s, add), remove) == s <==> Key(Sealed(add.path)) !in s.blocked
  {
    var k := Key(Sealed(add.path));
    assert k !in Apply(Apply(s, add), remove).blocked;
    if k !in s.blocked {
      assert (s.blocked + {k}) - {k} == s.blocked;
      assert s.blocked - {k} == s.blocked;
    }
  }

  /** Such an open is denied, not only looked up: here one that asks for SYNCHRONIZE and FILE_READ_DATA. */
  lemma DeniedWithoutExecute()
    ensures var a: WChar := 'A' as int;
            var o := Open(false, 0x0010_0001, 0, Resolved([a, NUL], 1));
            o.access & FILE_EXECUTE == 0 && Denied(Run([Command(AddOf([a]))]), o)
  {
    var a: WChar := 'A' as int;
    var o := Open(false, 0x0010_0001, 0, Resolved([a, NUL], 1));
    AsksIff(o);
    TextIs([a, NUL], 1);
    AddedAlone([a], Key([a, NUL]));
    DenialLaw([Command(AddOf([a]))], o);
  }

  ghost function DenialCount(events: seq<Event>): nat {
    if events == [] then 0
    else
      var before := events[..|events| - 1];
      var e := events[|events| - 1];
      DenialCount(before) + if e.Opened? && Denied(Run(before), e.o) then 1 else 0
  }

  lemma {:induction false} DenialsCounted(events: seq<Event>)
    ensures Run(events).denials == DenialCount(events) % COUNT_RANGE
  {
    if events != [] {
      var before := events[..|events| - 1];
      DenialsCounted(before);
      StepCounts(Run(before), events[|events| - 1]);
      NextCount(DenialCount(before));
    }
  }

  lemma NextCount(n: nat)
    ensures (n % COUNT_RANGE + 1) % COUNT_RANGE == (n + 1) % COUNT_RANGE
  {
  }

  lemma StepCounts(s: State, e: Event)
    ensures Step(s, e).denials == if e.Opened? && Denied(s, e.o) then (s.denials + 1) % COUNT_RANGE else s.denials
  {
  }

  // ---------- The driver object ----------

  class CommandBuffer {
    var kind: nat
    const path: array<WChar>

    constructor (kind: nat, path: array<WChar>)
      ensures this.kind == kind && this.path == path
    {
      this.kind, this.path := kind, path;
    }
  }

  class ReplyBuffer {
    var status: nat
    var blocklistCount: nat
    var blocksTotal: nat

    constructor () {
      status, blocklistCount, blocksTotal := 0, 0, 0;
    }
  }

  class Filter {
    const blocklist: Blocklist
    var totalBlocks: nat

    ghost predicate Valid()
      reads this, blocklist, blocklist.lock, blocklist.live
    {
      blocklist.Valid() && !blocklist.lock.held
    }

    ghost function View(): State
      reads this, blocklist
    {
      State(blocklist.Blocked(), totalBlocks)
    }

    constructor ()
      ensures Valid() && fresh(blocklist) && fresh(blocklist.lock) && View() == Run([])
    {
      blocklist := new Blocklist();
      totalBlocks := 0;
    }

    method PortMessage(cmd: CommandBuffer?, inputLength: nat, reply: ReplyBuffer?, replyLength: nat, memory: bool)
      returns (status: NtStatus, ghost m: Message)
      requires Valid()
      requires cmd != null ==> cmd.path.Length == MAX_PATH
      modifies blocklist, blocklist.lock, blocklist.live`next, if cmd == null then {} else {cmd.path}, reply
      ensures Valid() && fresh(blocklist.live - old(blocklist.live))
      ensures m.present == (cmd != null) && m.inputLength == inputLength && m.memory == memory
      ensures m.replyPresent == (reply != null) && m.replyLength == replyLength
      ensures cmd != null ==> m.kind == cmd.kind && m.path == old(cmd.path[..])
      ensures status == Outcome(old(View()), m) && View() == Apply(old(View()), m)
      ensures reply != null && m.present && m.kind == MSG_QUERY_STATUS && status == StatusSuccess ==>
                && reply.status == 0
                && reply.blocklistCount == |View().blocked| % COUNT_RANGE
                && reply.blocksTotal == totalBlocks
    {
      ghost var noPath: PathField := seq(MAX_PATH, _ => NUL);
      m := Message(cmd != null, inputLength, if cmd == null then 0 else cmd.kind,
                   if cmd == null then noPath else cmd.path[..], reply != null, replyLength, memory);
      if cmd == null || inputLength < TYPE_SIZE {
        return InvalidParameter, m;
      }
      if cmd.kind == MSG_ADD_BLOCK {
        status := AddBlock(cmd.path, memory, m, inputLength);
      } else if cmd.kind == MSG_REMOVE_BLOCK {
        status := RemoveBlock(cmd.path, m, inputLength);
      } else if cmd.kind == MSG_QUERY_STATUS {
        if reply == null || replyLength < REPLY_SIZE {
          return BufferTooSmall, m;
        }
        var n := blocklist.Count();
        reply.status, reply.blocklistCount, reply.blocksTotal := 0, n, totalBlocks;
        status := StatusSuccess;
      } else {
        status := InvalidParameter;
      }
    }

    /** The cases of its switch that edit the list. */
    method AddBlock(path: array<WChar>, memory: bool, ghost m: Message, inputLength: nat) returns (status: NtStatus)
      requires Valid() && path.Length == MAX_PATH
      requires m.present && m.kind == MSG_ADD_BLOCK && m.path == path[..] && m.memory == memory
      requires TYPE_SIZE <= inputLength == m.inputLength
      modifies blocklist, blocklist.lock, blocklist.live`next, path
      ensures Valid() && totalBlocks == old(totalBlocks) && fresh(blocklist.live - old(blocklist.live))
      ensures status == Outcome(old(View()), m) && View() == Apply(old(View()), m)
    {
      if inputLength < COMMAND_SIZE {
        return BufferTooSmall;
      }
      path[MAX_PATH - 1] := NUL;
      SealedFits(m.path);
      assert path[..] == Sealed(m.path);
      var rc := blocklist.Add(path, memory);
      status := if rc != Success && rc != Duplicate then InsufficientResources else StatusSuccess;
    }

    method RemoveBlock(path: array<WChar>, ghost m: Message, inputLength: nat) returns (status: NtStatus)
      requires Valid() && path.Length == MAX_PATH
      requires m.present && m.kind == MSG_REMOVE_BLOCK && m.path == path[..]
      requires TYPE_SIZE <= inputLength == m.inputLength
      modifies blocklist, blocklist.lock, blocklist.live`next, path
      ensures Valid() && totalBlocks == old(totalBlocks) && fresh(blocklist.live - old(blocklist.live))
      ensures status == Outcome(old(View()), m) && View() == Apply(old(View()), m)
    {
      if inputLength < COMMAND_SIZE {
        return BufferTooSmall;
      }
      path[MAX_PATH - 1] := NUL;
      SealedFits(m.path);
      assert path[..] == Sealed(m.path);
      var _ := blocklist.Remove(path);
      status := StatusSuccess;
    }

    /**
     * The callback; `name` is null when the file name could not be resolved, and else all the
     * memory that can be read from the name's buffer on, the name being its first `length`
     * characters. Other threads' messages `ms` come between the look at the count and the lookup.
     */
    method PreCreate(kernelMode: bool, access: bv32, options: bv32, name: array?<WChar>, length: nat)
      returns (verdict: Verdict, ghost ms: seq<Message>)
      requires Valid() && (name != null ==> length <= name.Length)
      modifies this`totalBlocks, blocklist, blocklist.lock, blocklist.live`next
      ensures Valid() && fresh(blocklist.live - old(blocklist.live))
      ensures var o := Open(kernelMode, access, options, if name == null then Unresolved else Resolved(old(name[..]), length));
              var before, after := old(View()), ApplyAll(old(View()), ms);
              && verdict == Judge(before, after, o)
              && View() == if verdict == Deny then after.(denials := (after.denials + 1) % COUNT_RANGE) else after
      ensures kernelMode || access & 0x0012_00A0 == 0 || options & 0x100 != 0 || name == null ==>
                verdict == Allow && totalBlocks == old(totalBlocks)
    {
      ms := [];
      DistinctCount(blocklist.keys);
      if blocklist.count == 0 {
        return Allow, ms;
      }
      if kernelMode {
        return Allow, ms;
      }
      if access & (FILE_EXECUTE | FILE_GENERIC_EXECUTE) == 0 {
        return Allow, ms;
      }
      if options & FILE_COMPLETE_IF_OPLOCKED != 0 {
        return Allow, ms;
      }
      if name == null {
        return Allow, ms;
      }
      ghost var memory := name[..];
      ms := Others();
      assert name[..] == memory;
      var reachable := EndsInMemory(name);
      if !reachable {
        return Fault, ms;
      }
      var deny := blocklist.Contains(name);
      if deny {
        totalBlocks := (totalBlocks + 1) % COUNT_RANGE;
      }
      verdict := if deny then Deny else Allow;
    }

    /** Whether scanning the name ends before memory does; where it does not, the machine faults. */
    method EndsInMemory(name: array<WChar>) returns (ok: bool)
      ensures ok <==> Readable(name[..])
    {
      var i := 0;
      while i < name.Length && i < MAX_PATH && name[i] != NUL
        invariant 0 <= i <= name.Length && i <= MAX_PATH && i <= TextLen(name[..])
      {
        i := i + 1;
      }
      ok := i < name.Length || i == MAX_PATH;
    }

    /** Any number of messages of other threads. */
    method Others() returns (ghost ms: seq<Message>)
      requires Valid()
      modifies blocklist, blocklist.lock, blocklist.live`next
      ensures Valid() && View() == ApplyAll(old(View()), ms) && fresh(blocklist.live - old(blocklist.live))
    {
      ms := [];
      var n: nat :| true;
      for i := 0 to n
        invariant Valid() && View() == ApplyAll(old(View()), ms) && fresh(blocklist.live - old(blocklist.live))
      {
        var kind: nat, inputLength: nat :| true;
        var contents: PathField :| true;
        var memory: bool := *;
        var path := new WChar[MAX_PATH](k requires 0 <= k < MAX_PATH => contents[k]);
        var cmd := new CommandBuffer(kind, path);
        ghost var m;
        var status;
        status, m := PortMessage(cmd, inputLength, null, 0, memory);
        assert (ms + [m])[..|ms|] == ms;
        ms := ms + [m];
      }
    }
  }
}
