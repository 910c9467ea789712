/** Clipboard synchronisation: what is read from a clipboard and sent, what is written to it on behalf
    of a peer, and the owner marker that keeps the second from becoming the first. */
module Clipboard {

  type Byte = bv8

  datatype Image = Rgba(width: nat, height: nat, pixels: seq<Byte>) | Png(png: seq<Byte>) | Svg(svg: string)

  /** One format of a clipboard's content. */
  datatype Data =
    | Text(text: string)
    | Html(html: string)
    | Rtf(rtf: string)
    | Picture(image: Image)
    | FileUrl(urls: seq<string>)
    | Special(name: string, bytes: seq<Byte>)

  datatype Side = Host | Client

  const OWNER_FORMAT := "dyn.com.rustdesk.owner"
  const EXCEL_FORMAT := "XML Spreadsheet"

  // ---------------------------------------------------------------------------------------------
  // The marker
  // ---------------------------------------------------------------------------------------------

  function OwnerData(side: Side): seq<Byte> {
    if side == Host then [1] else [2]
  }

  /** Whether marker data says that this program owns the clipboard; either side's does. */
  predicate IsOwner(bytes: seq<Byte>) {
    bytes != [] && bytes[0] & 3 != 0
  }

  predicate IsOwnerFormat(d: Data) {
    d.Special? && d.name == OWNER_FORMAT
  }

  predicate IsMarker(d: Data) {
    IsOwnerFormat(d) && IsOwner(d.bytes)
  }

  predicate Marked(board: seq<Data>) {
    exists i | 0 <= i < |board| :: IsMarker(board[i])
  }

  function AppendOwnerMarker(data: seq<Data>, side: Side): seq<Data> {
    data + [Special(OWNER_FORMAT, OwnerData(side))]
  }

  lemma OwnerDataIsOwner(side: Side)
    ensures IsOwner(OwnerData(side))
  {
  }

  /** Whatever is written, and for whichever side, the marker is found in it. */
  lemma AppendMarks(data: seq<Data>, side: Side)
    ensures Marked(AppendOwnerMarker(data, side))
  {
    OwnerDataIsOwner(side);
    assert IsMarker(AppendOwnerMarker(data, side)[|data|]);
  }

  // ---------------------------------------------------------------------------------------------
  // Reading
  // ---------------------------------------------------------------------------------------------

  /** The formats that are asked for; files only where they can be copied. */
  predicate Supported(fileCopy: bool, d: Data) {
    match d
    case FileUrl(_) => fileCopy
    case Special(name, _) => name == EXCEL_FORMAT || name == OWNER_FORMAT
    case _ => true
  }

  /** What may be sent: neither the marker nor an empty text. */
  predicate Sendable(d: Data) {
    !IsOwnerFormat(d) && !(d.Text? && d.text == "")
  }

  function Select(data: seq<Data>, keep: Data -> bool): (r: seq<Data>)
    ensures forall d :: d in r <==> d in data && keep(d)
  {
    if data == [] then []
    else (if keep(data[0]) then [data[0]] else []) + Select(data[1..], keep)
  }

  /** What the filter lets through. */
  function Visible(data: seq<Data>, force: bool): seq<Data> {
    if !force && Marked(data) then [] else Select(data, Sendable)
  }

  predicate HasFiles(data: seq<Data>) {
    exists i | 0 <= i < |data| :: data[i].FileUrl?
  }

  /** What a check reads from a clipboard, to be sent. */
  function Readable(fileCopy: bool, board: seq<Data>, force: bool): seq<Data> {
    var data := Visible(Select(board, d => Supported(fileCopy, d)), force);
    if fileCopy && HasFiles(data) then [] else data
  }

  lemma {:induction false} SelectedMarker(data: seq<Data>, fileCopy: bool, i: nat)
    requires i < |data| && IsMarker(data[i])
    ensures Marked(Select(data, d => Supported(fileCopy, d)))
    decreases |data|
  {
    var keep := d => Supported(fileCopy, d);
    var rest := Select(data[1..], keep);
    if i == 0 {
      assert Select(data, keep)[0] == data[0];
    } else {
      SelectedMarker(data[1..], fileCopy, i - 1);
      var k :| 0 <= k < |rest| && IsMarker(rest[k]);
      assert Select(data, keep)[|Select(data, keep)| - |rest| + k] == rest[k];
    }
  }

  /** A marked clipboard is not read, unless forced. */
  lemma MarkedIsSilent(fileCopy: bool, board: seq<Data>)
    requires Marked(board)
    ensures Readable(fileCopy, board, false) == []
  {
    var i :| 0 <= i < |board| && IsMarker(board[i]);
    SelectedMarker(board, fileCopy, i);
  }

  /** What is read never carries the marker on. */
  lemma ReadableHasNoMarker(fileCopy: bool, board: seq<Data>, force: bool)
    ensures forall d | d in Readable(fileCopy, board, force) :: !IsOwnerFormat(d)
  {
    var data := Select(board, d => Supported(fileCopy, d));
    assert forall d | d in Select(data, Sendable) :: Sendable(d);
  }

  /** Data says that this program owns the clipboard exactly if one of the two lowest bits of its first
      byte is set; each side sets one of them. */
  lemma OwnerBits(bytes: seq<Byte>)
    ensures IsOwner(bytes) <==> bytes != [] && bytes[0] as int % 4 != 0
    ensures OwnerData(Host) == [1] && OwnerData(Client) == [2]
  {
  }

  /** Exactly what a check reads of a clipboard it may read: texts that are not empty, every other format
      there is a name for, of the named ones only spreadsheets; and nothing at all if there are files and
      files can be copied. */
  lemma WhatIsRead(fileCopy: bool, board: seq<Data>, force: bool, d: Data)
    requires force || !Marked(board)
    ensures d in Readable(fileCopy, board, force)
       <==> && d in board && !(fileCopy && exists i | 0 <= i < |board| :: board[i].FileUrl?)
            && match d
               case Text(text) => text != ""
               case Special(name, _) => name == "XML Spreadsheet"
               case FileUrl(_) => false
               case _ => true
  {
    var data := Select(board, d => Supported(fileCopy, d));
    if !force {
      StillUnmarked(board, data);
    }
    assert Visible(data, force) == Select(data, Sendable);
    if fileCopy {
      SameFiles(board, Select(data, Sendable));
      SameFiles(Select(data, Sendable), board);
    }
    NamesDiffer();
  }

  lemma StillUnmarked(board: seq<Data>, data: seq<Data>)
    requires !Marked(board) && forall d | d in data :: d in board
    ensures !Marked(data)
  {
    forall i | 0 <= i < |data| ensures !IsMarker(data[i]) {
      assert data[i] in board;
    }
  }

  lemma SameFiles(board: seq<Data>, data: seq<Data>)
    requires forall d | d in board && d.FileUrl? :: d in data
    ensures HasFiles(board) ==> HasFiles(data)
  {
    if i :| 0 <= i < |board| && board[i].FileUrl? {
      assert board[i] in board && board[i] in data;
      var k :| 0 <= k < |data| && data[k] == board[i];
    }
  }

  lemma NamesDiffer()
    ensures EXCEL_FORMAT != OWNER_FORMAT
  {
    assert EXCEL_FORMAT[0] == 'X' && OWNER_FORMAT[0] == 'd';
  }

  // ---------------------------------------------------------------------------------------------
  // The message
  // ---------------------------------------------------------------------------------------------

  /** The low 32 bits, as a signed number. */
  function WrapI32(x: int): int {
    (x + 0x8000_0000) % 0x1_0000_0000 - 0x8000_0000
  }

  /** Whether dimensions that came with a picture account for its pixels. */
  predicate ValidDimensions(width: int, height: int, length: nat) {
    width > 0 && height > 0 && width * height * 4 == length
  }

  /** One format, put into a message and taken out of it again. */
  function Transferred(d: Data): (r: seq<Data>)
    ensures forall x | x in r :: IsOwnerFormat(x) ==> IsOwnerFormat(d)
  {
    match d
    case FileUrl(_) => []
    case Picture(Rgba(w, h, pixels)) =>
      var width, height := WrapI32(w), WrapI32(h);
      if ValidDimensions(width, height, |pixels|) then [Picture(Rgba(width, height, pixels))] else []
    case _ => [d]
  }

  /** Every format but files, and every picture whose pixels fit dimensions that a message can carry,
      arrives as it was; files, and pictures whose pixels do not fit, do not arrive. */
  lemma TransferExact(d: Data)
    ensures d.FileUrl? ==> Transferred(d) == []
    ensures d.Text? || d.Html? || d.Rtf? || d.Special? ==> Transferred(d) == [d]
    ensures d.Picture? && !d.image.Rgba? ==> Transferred(d) == [d]
    ensures d.Picture? && d.image.Rgba? ==>
              var Rgba(w, h, pixels) := d.image;
              && (Transferred(d) == [d] <==> 0 < w < 0x8000_0000 && 0 < h < 0x8000_0000 && w * h * 4 == |pixels|)
              && (Transferred(d) != [d] && w < 0x8000_0000 && h < 0x8000_0000 ==> Transferred(d) == [])
  {
  }

  lemma {:induction false} TransferAllExact(data: seq<Data>)
    requires forall i | 0 <= i < |data| :: Transferred(data[i]) == [data[i]]
    ensures TransferAll(data) == data
    decreases |data|
  {
    if data != [] {
      TransferAllExact(data[1..]);
      assert [data[0]] + data[1..] == data;
    }
  }

  function TransferAll(data: seq<Data>): seq<Data> {
    if data == [] then [] else Transferred(data[0]) + TransferAll(data[1..])
  }

  // ---------------------------------------------------------------------------------------------
  // Machines that exchange their clipboards
  // ---------------------------------------------------------------------------------------------

  /** Who wrote what a clipboard holds. A torn write of the program stopped before its last item; it was
      to write `data` and the marker of `side`, and wrote so many items. */
  datatype Source = Nobody | User(copy: nat) | Program | Torn(data: seq<Data>, side: Side, written: nat)

  /** A machine's clipboard, with every copy its user made, and the source of what it holds now. */
  datatype Machine = Machine(fileCopy: bool, board: seq<Data>, copies: seq<seq<Data>>, source: Source)

  /** A message, who sent it, whether the read was forced, and the source of what was read. */
  datatype Sent = Sent(sender: nat, force: bool, source: Source, content: seq<Data>)

  datatype World = World(machines: seq<Machine>, sent: seq<Sent>)

  /** How setting a clipboard ends: done, or failed with the old content kept, nothing left, or the
      first items written. */
  datatype Outcome = Done | Kept | Emptied | Stopped(written: nat)

  datatype Step =
    | Copy(m: nat, content: seq<Data>)
    | Check(m: nat, side: Side, force: bool)
    | Deliver(k: nat, m: nat, side: Side, outcome: Outcome)
    | WriteText(m: nat, text: string, side: Side, outcome: Outcome)

  /** Steps name machines and messages that exist. */
  predicate Possible(w: World, step: Step) {
    step.m < |w.machines| && (step.Deliver? ==> step.k < |w.sent|)
  }

  function CopyOn(machine: Machine, content: seq<Data>): Machine {
    machine.(board := content, copies := machine.copies + [content], source := User(|machine.copies|))
  }

  /** What a write that stopped leaves: never the last item. */
  function Remnant(data: seq<Data>, written: nat): seq<Data> {
    data[..if written < |data| then written else if data == [] then 0 else |data| - 1]
  }

  /** What is left of data and its marker. */
  function TornBoard(data: seq<Data>, side: Side, written: nat): seq<Data> {
    Remnant(AppendOwnerMarker(data, side), written)
  }

  /** A write of data, with its marker. */
  function SetOn(machine: Machine, data: seq<Data>, side: Side, outcome: Outcome): Machine {
    match outcome
    case Done => machine.(board := AppendOwnerMarker(data, side), source := Program)
    case Kept => machine
    case Emptied => machine.(board := [], source := Nobody)
    case Stopped(written) =>
      machine.(board := TornBoard(data, side, written), source := Torn(data, side, written))
  }

  function UpdateOn(machine: Machine, content: seq<Data>, side: Side, outcome: Outcome): Machine {
    var data := TransferAll(content);
    if data == [] then machine else SetOn(machine, data, side, outcome)
  }

  function CheckOn(machine: Machine, m: nat, force: bool): seq<Sent> {
    var content := Readable(machine.fileCopy, machine.board, force);
    if content == [] then [] else [Sent(m, force, machine.source, content)]
  }

  function Next(w: World, step: Step): World
    requires Possible(w, step)
  {
    var machine := w.machines[step.m];
    match step
    case Copy(m, content) => w.(machines := w.machines[m := CopyOn(machine, content)])
    case Check(m, side, force) => w.(sent := w.sent + CheckOn(machine, m, force))
    case Deliver(k, m, side, outcome) =>
      w.(machines := w.machines[m := UpdateOn(machine, w.sent[k].content, side, outcome)])
    case WriteText(m, text, side, outcome) =>
      w.(machines := w.machines[m := SetOn(machine, [Text(text)], side, outcome)])
  }

  predicate AllPossible(w: World, steps: seq<Step>)
    decreases |steps|
  {
    steps == [] || (Possible(w, steps[0]) && AllPossible(Next(w, steps[0]), steps[1..]))
  }

  function Run(w: World, steps: seq<Step>): World
    requires AllPossible(w, steps)
    decreases |steps|
  {
    if steps == [] then w else Run(Next(w, steps[0]), steps[1..])
  }

  /** Machines whose clipboards are empty, and nothing sent. */
  predicate IsStart(w: World) {
    && w.sent == []
    && forall m | 0 <= m < |w.machines| ::
         w.machines[m].board == [] && w.machines[m].copies == [] && w.machines[m].source == Nobody
  }

  // ---------------------------------------------------------------------------------------------
  // No echo
  // ---------------------------------------------------------------------------------------------

  predicate Markerless(data: seq<Data>) {
    forall i | 0 <= i < |data| :: !IsOwnerFormat(data[i])
  }

  /** What this program wrote is marked, unless the write was torn, and then it is not; anything else is
      what the user copied. */
  predicate Accounted(machine: Machine) {
    match machine.source
    case Nobody => machine.board == []
    case User(k) => k < |machine.copies| && machine.board == machine.copies[k]
    case Program => Marked(machine.board)
    case Torn(data, side, written) => machine.board == TornBoard(data, side, written) && Markerless(data)
  }

  /** A message that a machine read from one of its own user's copies. */
  predicate FromUser(machine: Machine, message: Sent) {
    && message.source.User? && message.source.copy < |machine.copies|
    && message.content == Readable(machine.fileCopy, machine.copies[message.source.copy], message.force)
  }

  /** A message that a machine read from what a torn write had left there. */
  predicate FromTorn(machine: Machine, message: Sent) {
    && message.source.Torn?
    && var Torn(data, side, written) := message.source;
       message.content == Readable(machine.fileCopy, TornBoard(data, side, written), message.force)
  }

  /** An unforced message is from a copy of the sender's user, or from a torn write; and no message
      carries a marker. */
  predicate Honest(machines: seq<Machine>, message: Sent) {
    && message.sender < |machines|
    && (!message.force ==> message.source.User? || message.source.Torn?)
    && (message.source.User? ==> FromUser(machines[message.sender], message))
    && (message.source.Torn? ==> FromTorn(machines[message.sender], message))
    && Markerless(message.content)
  }

  /** Data that came in a message, or a text the program sets by itself. */
  ghost predicate IsWritten(sent: seq<Sent>, data: seq<Data>) {
    (exists k | 0 <= k < |sent| :: data == TransferAll(sent[k].content)) || (exists text :: data == [Text(text)])
  }

  ghost predicate TornIsWritten(sent: seq<Sent>, source: Source) {
    source.Torn? ==> IsWritten(sent, source.data)
  }

  ghost predicate Safe(w: World) {
    && (forall m | 0 <= m < |w.machines| :: Accounted(w.machines[m]) && TornIsWritten(w.sent, w.machines[m].source))
    && (forall k | 0 <= k < |w.sent| :: Honest(w.machines, w.sent[k]) && TornIsWritten(w.sent, w.sent[k].source))
  }

  /** Copies are only ever added. */
  predicate Extends(before: Machine, after: Machine) {
    after.fileCopy == before.fileCopy && before.copies <= after.copies
  }

  lemma HonestStays(machines: seq<Machine>, m: nat, after: Machine, message: Sent)
    requires m < |machines| && Extends(machines[m], after) && Honest(machines, message)
    ensures Honest(machines[m := after], message)
  {
  }

  lemma MachineStep(w: World, m: nat, after: Machine)
    requires Safe(w) && m < |w.machines| && Extends(w.machines[m], after) && Accounted(after)
    requires TornIsWritten(w.sent, after.source)
    ensures Safe(w.(machines := w.machines[m := after]))
  {
    forall k | 0 <= k < |w.sent| ensures Honest(w.machines[m := after], w.sent[k]) {
      HonestStays(w.machines, m, after, w.sent[k]);
    }
  }

  lemma RemnantIsMarkerless(data: seq<Data>, side: Side, written: nat)
    requires Markerless(data)
    ensures Markerless(Remnant(AppendOwnerMarker(data, side), written))
  {
  }

  lemma {:induction false} TransferKeepsMarkerless(data: seq<Data>)
    requires Markerless(data)
    ensures Markerless(TransferAll(data))
    decreases |data|
  {
    if data != [] {
      assert Markerless(data[1..]);
      TransferKeepsMarkerless(data[1..]);
      var first := Transferred(data[0]);
      assert forall i | 0 <= i < |first| :: first[i] in first;
    }
  }

  lemma SetAccounted(machine: Machine, data: seq<Data>, side: Side, outcome: Outcome)
    requires Accounted(machine) && Markerless(data)
    ensures Accounted(SetOn(machine, data, side, outcome)) && Extends(machine, SetOn(machine, data, side, outcome))
  {
    AppendMarks(data, side);
  }

  lemma ReadableMarkerless(fileCopy: bool, board: seq<Data>, force: bool)
    ensures Markerless(Readable(fileCopy, board, force))
  {
    var content := Readable(fileCopy, board, force);
    ReadableHasNoMarker(fileCopy, board, force);
    assert forall i | 0 <= i < |content| :: content[i] in content;
  }

  /** A message that a check sends is honest. */
  lemma CheckHonest(w: World, m: nat, force: bool)
    requires Safe(w) && m < |w.machines|
    ensures forall message | message in CheckOn(w.machines[m], m, force) ::
              Honest(w.machines, message) && TornIsWritten(w.sent, message.source)
  {
    var machine := w.machines[m];
    assert Accounted(machine);
    ReadableMarkerless(machine.fileCopy, machine.board, force);
    if machine.source.Program? {
      MarkedIsSilent(machine.fileCopy, machine.board);
    }
  }

  lemma WrittenStays(sent: seq<Sent>, more: seq<Sent>, source: Source)
    requires TornIsWritten(sent, source)
    ensures TornIsWritten(sent + more, source)
  {
    if source.Torn? && exists k | 0 <= k < |sent| :: source.data == TransferAll(sent[k].content) {
      var k :| 0 <= k < |sent| && source.data == TransferAll(sent[k].content);
      assert (sent + more)[k] == sent[k];
    }
  }

  /** More messages, each honest and from a source that is accounted for, keep a world safe. */
  lemma SentGrows(w: World, more: seq<Sent>)
    requires Safe(w)
    requires forall message | message in more ::
               Honest(w.machines, message) && TornIsWritten(w.sent, message.source)
    ensures Safe(w.(sent := w.sent + more))
  {
    forall m | 0 <= m < |w.machines| ensures TornIsWritten(w.sent + more, w.machines[m].source) {
      WrittenStays(w.sent, more, w.machines[m].source);
    }
    forall k | 0 <= k < |w.sent + more|
      ensures Honest(w.machines, (w.sent + more)[k]) && TornIsWritten(w.sent + more, (w.sent + more)[k].source)
    {
      assert k >= |w.sent| ==> (w.sent + more)[k] in more;
      WrittenStays(w.sent, more, (w.sent + more)[k].source);
    }
  }

  lemma StepSafe(w: World, step: Step)
    requires Safe(w) && Possible(w, step)
    ensures Safe(Next(w, step))
  {
    var machine := w.machines[step.m];
    assert Accounted(machine);
    match step
    case Copy(m, content) => MachineStep(w, m, CopyOn(machine, content));
    case Check(m, side, force) =>
      CheckHonest(w, m, force);
      SentGrows(w, CheckOn(machine, m, force));
    case Deliver(k, m, side, outcome) =>
      assert Honest(w.machines, w.sent[k]);
      TransferKeepsMarkerless(w.sent[k].content);
      SetAccounted(machine, TransferAll(w.sent[k].content), side, outcome);
      MachineStep(w, m, UpdateOn(machine, w.sent[k].content, side, outcome));
    case WriteText(m, text, side, outcome) =>
      SetAccounted(machine, [Text(text)], side, outcome);
      MachineStep(w, m, SetOn(machine, [Text(text)], side, outcome));
  }

  lemma {:induction false} RunSafe(w: World, steps: seq<Step>)
    requires Safe(w) && AllPossible(w, steps)
    ensures Safe(Run(w, steps))
    decreases |steps|
  {
    if steps != [] {
      StepSafe(w, steps[0]);
      RunSafe(Next(w, steps[0]), steps[1..]);
    }
  }

  /** In every interleaving, each message from a check that was not forced carries what a user of the
      sending machine copied there, or what a torn write left there. */
  lemma NoEchoUnlessTorn(start: World, steps: seq<Step>, k: nat)
    requires IsStart(start) && AllPossible(start, steps) && k < |Run(start, steps).sent|
    ensures var w := Run(start, steps); var message := w.sent[k];
            && message.sender < |w.machines|
            && (!message.force ==>
                  || FromUser(w.machines[message.sender], message)
                  || (FromTorn(w.machines[message.sender], message) && IsWritten(w.sent, message.source.data)))
  {
    assert Safe(start);
    RunSafe(start, steps);
    assert Honest(Run(start, steps).machines, Run(start, steps).sent[k]);
  }

  predicate NoWriteStops(steps: seq<Step>) {
    forall i | 0 <= i < |steps| && (steps[i].Deliver? || steps[i].WriteText?) :: !steps[i].outcome.Stopped?
  }

  ghost predicate NothingTorn(w: World) {
    && (forall m | 0 <= m < |w.machines| :: !w.machines[m].source.Torn?)
    && (forall k | 0 <= k < |w.sent| :: !w.sent[k].source.Torn?)
  }

  lemma {:induction false} NothingTornRun(w: World, steps: seq<Step>)
    requires NothingTorn(w) && AllPossible(w, steps) && NoWriteStops(steps)
    ensures NothingTorn(Run(w, steps))
    decreases |steps|
  {
    if steps != [] {
      assert NothingTorn(Next(w, steps[0]));
      assert NoWriteStops(steps[1..]);
      NothingTornRun(Next(w, steps[0]), steps[1..]);
    }
  }

  /** In particular, if every write is done or leaves nothing of itself, no unforced message carries
      anything but what a user of the sending machine copied there. */
  lemma NoEcho(start: World, steps: seq<Step>, k: nat)
    requires IsStart(start) && AllPossible(start, steps) && k < |Run(start, steps).sent|
    requires NoWriteStops(steps)
    ensures var w := Run(start, steps); var message := w.sent[k];
            message.sender < |w.machines| && (!message.force ==> FromUser(w.machines[message.sender], message))
  {
    assert NothingTorn(start);
    NothingTornRun(start, steps);
    NoEchoUnlessTorn(start, steps, k);
  }

  lemma {:induction false} SelectNone(data: seq<Data>, fileCopy: bool)
    requires Markerless(data)
    ensures !Marked(Select(data, d => Supported(fileCopy, d)))
  {
    var kept := Select(data, d => Supported(fileCopy, d));
    forall i | 0 <= i < |kept| ensures !IsMarker(kept[i]) {
      assert kept[i] in kept;
    }
  }

  /** In every reachable world, a check passes on what the program wrote if and only if there is
      something to read, and the check is forced or the write was torn. */
  lemma EchoIff(start: World, steps: seq<Step>, m: nat, force: bool)
    requires IsStart(start) && AllPossible(start, steps) && m < |Run(start, steps).machines|
    ensures var machine := Run(start, steps).machines[m];
            (exists message | message in CheckOn(machine, m, force) :: ByProgram(message.source))
            <==> && Readable(machine.fileCopy, machine.board, true) != []
                 && (machine.source.Torn? || (force && machine.source == Program))
  {
    assert Safe(start);
    RunSafe(start, steps);
    var machine := Run(start, steps).machines[m];
    assert Accounted(machine);
    CheckEcho(machine, m, force);
  }

  predicate ByProgram(source: Source) {
    source.Program? || source.Torn?
  }

  lemma CheckEcho(machine: Machine, m: nat, force: bool)
    requires Accounted(machine)
    ensures (exists message | message in CheckOn(machine, m, force) :: ByProgram(message.source))
       <==> && Readable(machine.fileCopy, machine.board, true) != []
            && (machine.source.Torn? || (force && machine.source == Program))
  {
    var sent := CheckOn(machine, m, force);
    if machine.source.Program? {
      MarkedIsSilent(machine.fileCopy, machine.board);
    } else if machine.source.Torn? {
      RemnantIsMarkerless(machine.source.data, machine.source.side, machine.source.written);
      SelectNone(machine.board, machine.fileCopy);
    }
    assert sent != [] ==> sent[0] in sent;
  }

  /** Messages of `m` that were not forced. */
  function Unforced(sent: seq<Sent>, m: nat): nat {
    if sent == [] then 0
    else
      var last := sent[|sent| - 1];
      Unforced(sent[..|sent| - 1], m) + (if last.sender == m && !last.force then 1 else 0)
  }

  /** Neither a copy nor a torn write on `m`. */
  predicate Leaves(step: Step, m: nat) {
    match step
    case Copy(n, _) => n != m
    case Check(_, _, _) => true
    case Deliver(_, n, _, outcome) => n != m || !outcome.Stopped?
    case WriteText(n, _, _, outcome) => n != m || !outcome.Stopped?
  }

  predicate AllLeave(steps: seq<Step>, m: nat) {
    forall i | 0 <= i < |steps| :: Leaves(steps[i], m)
  }

  lemma QuietStep(w: World, step: Step, m: nat)
    requires Safe(w) && Possible(w, step) && m < |w.machines| && Leaves(step, m)
    requires w.machines[m].source in {Nobody, Program}
    ensures Next(w, step).machines[m].source in {Nobody, Program}
    ensures Unforced(Next(w, step).sent, m) == Unforced(w.sent, m)
  {
    var machine := w.machines[m];
    assert Accounted(machine);
    if step.Check? {
      var more := CheckOn(w.machines[step.m], step.m, step.force);
      if machine.source.Program? {
        MarkedIsSilent(machine.fileCopy, machine.board);
      }
      if more != [] {
        assert (w.sent + more)[..|w.sent|] == w.sent;
      } else {
        assert w.sent + more == w.sent;
      }
    }
  }

  /** Once a machine's clipboard was written for a peer, the machine sends nothing unforced until its
      user copies something or a write stops part-way, whatever is delivered, written or checked, and
      on whichever side. */
  lemma {:induction false} QuietUntilCopy(w: World, steps: seq<Step>, m: nat)
    requires Safe(w) && AllPossible(w, steps) && m < |w.machines| && AllLeave(steps, m)
    requires w.machines[m].source in {Nobody, Program}
    ensures Unforced(Run(w, steps).sent, m) == Unforced(w.sent, m)
    decreases |steps|
  {
    if steps != [] {
      assert steps[0] in steps;
      QuietStep(w, steps[0], m);
      StepSafe(w, steps[0]);
      QuietUntilCopy(Next(w, steps[0]), steps[1..], m);
    }
  }

  /** A copy, a check and a delivery to another machine. */
  function CopyCheckDeliver(w: World, m: nat, peer: nat, content: seq<Data>, side: Side, outcome: Outcome): seq<Step> {
    [Copy(m, content), Check(m, side, false), Deliver(|w.sent|, peer, side, outcome)]
  }

  lemma CopySent(w: World, m: nat, content: seq<Data>, side: Side)
    requires m < |w.machines| && Readable(w.machines[m].fileCopy, content, false) != []
    ensures var after := Next(Next(w, Copy(m, content)), Check(m, side, false));
            && after.machines == w.machines[m := CopyOn(w.machines[m], content)]
            && after.sent == w.sent + [Sent(m, false, User(|w.machines[m].copies|),
                                            Readable(w.machines[m].fileCopy, content, false))]
  {
  }

  lemma CopyDelivered(w: World, m: nat, peer: nat, content: seq<Data>, side: Side, outcome: Outcome)
    requires m < |w.machines| && peer < |w.machines| && peer != m
    requires Readable(w.machines[m].fileCopy, content, false) != []
    ensures var read := Readable(w.machines[m].fileCopy, content, false);
            var steps := CopyCheckDeliver(w, m, peer, content, side, outcome);
            AllPossible(w, steps) &&
            var after := Run(w, steps);
            && after.sent == w.sent + [Sent(m, false, User(|w.machines[m].copies|), read)]
            && |after.machines| == |w.machines|
            && after.machines[peer] == UpdateOn(w.machines[peer], read, side, outcome)
  {
    CopySent(w, m, content, side);
    RunThree(w, Copy(m, content), Check(m, side, false), Deliver(|w.sent|, peer, side, outcome));
  }

  /** What a user copies reaches the other machine: a check sends it, and its delivery leaves the other
      clipboard with that content and the marker, from where no unforced check sends it on. */
  lemma CopyArrives(w: World, m: nat, peer: nat, content: seq<Data>, side: Side)
    requires m < |w.machines| && peer < |w.machines| && peer != m
    requires TransferAll(Readable(w.machines[m].fileCopy, content, false)) != []
    ensures var read := Readable(w.machines[m].fileCopy, content, false);
            var steps := CopyCheckDeliver(w, m, peer, content, side, Done);
            AllPossible(w, steps) && |Run(w, steps).machines| == |w.machines| &&
            var after := Run(w, steps).machines[peer];
            && after.board == AppendOwnerMarker(TransferAll(read), side)
            && CheckOn(after, peer, false) == []
  {
    var read := Readable(w.machines[m].fileCopy, content, false);
    CopyDelivered(w, m, peer, content, side, Done);
    AppendMarks(TransferAll(read), side);
    MarkedIsSilent(w.machines[peer].fileCopy, AppendOwnerMarker(TransferAll(read), side));
  }

  lemma TextReads(fileCopy: bool, text: string)
    requires text != ""
    ensures Readable(fileCopy, [Text(text)], false) == [Text(text)]
    ensures TransferAll([Text(text)]) == [Text(text)]
  {
    var board := [Text(text)];
    assert board[1..] == [];
    assert Select(board, d => Supported(fileCopy, d)) == board;
    assert !Marked(board) && !HasFiles(board);
    assert Select(board, Sendable) == board;
  }

  /** A write that stops before its marker is an echo waiting to happen: a text copied on one machine is
      sent back by the next unforced check on the other. */
  lemma TornWriteEchoes(w: World, m: nat, peer: nat, text: string, side: Side)
    requires m < |w.machines| && peer < |w.machines| && peer != m && text != ""
    ensures var steps := CopyCheckDeliver(w, m, peer, [Text(text)], side, Stopped(1));
            AllPossible(w, steps) && |Run(w, steps).machines| == |w.machines| &&
            CheckOn(Run(w, steps).machines[peer], peer, false)
            == [Sent(peer, false, Torn([Text(text)], side, 1), [Text(text)])]
  {
    TextReads(w.machines[m].fileCopy, text);
    CopyDelivered(w, m, peer, [Text(text)], side, Stopped(1));
    TextReads(w.machines[peer].fileCopy, text);
    assert Remnant(AppendOwnerMarker([Text(text)], side), 1) == [Text(text)];
  }

  lemma RunThree(w: World, a: Step, b: Step, c: Step)
    requires Possible(w, a) && Possible(Next(w, a), b) && Possible(Next(Next(w, a), b), c)
    ensures AllPossible(w, [a, b, c]) && Run(w, [a, b, c]) == Next(Next(Next(w, a), b), c)
  {
    assert [a, b, c][1..] == [b, c] && [b, c][1..] == [c] && [c][1..] == [];
    RunTwo(Next(w, a), b, c);
  }

  lemma RunTwo(w: World, a: Step, b: Step)
    requires Possible(w, a) && Possible(Next(w, a), b)
    ensures AllPossible(w, [a, b]) && Run(w, [a, b]) == Next(Next(w, a), b)
  {
    var w1 := Next(w, a);
    assert [a, b][1..] == [b] && [b][1..] == [];
    assert AllPossible(Next(w1, b), []);
    assert AllPossible(w1, [b]) && Run(w1, [b]) == Next(w1, b);
  }

  // ---------------------------------------------------------------------------------------------
  // The operations on one clipboard
  // ---------------------------------------------------------------------------------------------

  const GET_MAX_RETRY: nat := 3

  /** What one attempt to read the clipboard gives. */
  datatype Reply = Occupied | Broken | Content(data: seq<Data>)

  /** What the attempts give together: the first reply, as long as only an occupied clipboard came
      before it. */
  ghost predicate IsAnswer(replies: seq<Reply>, i: nat) {
    i < |replies| && !replies[i].Occupied? && forall j | 0 <= j < i :: replies[j].Occupied?
  }

  /** Reads with retries; the reply of each attempt comes from outside. */
  method GetFormats(replies: seq<Reply>) returns (read: Reply)
    requires |replies| == 3
    ensures !read.Occupied?
    ensures || (exists i: nat :: IsAnswer(replies, i) && read == replies[i])
            || (read == Broken && forall i | 0 <= i < |replies| :: replies[i].Occupied?)
  {
    for i := 0 to GET_MAX_RETRY
      invariant forall j | 0 <= j < i :: replies[j].Occupied?
    {
      assert !replies[i].Occupied? ==> IsAnswer(replies, i);
      match replies[i]
      case Content(_) => return replies[i];
      case Broken => return replies[i];
      case Occupied =>
    }
    read := Broken;
  }

  lemma {:induction false} SelectMore(data: seq<Data>, d: Data, keep: Data -> bool)
    ensures Select(data + [d], keep) == Select(data, keep) + if keep(d) then [d] else []
    decreases |data|
  {
    if data == [] {
      assert data + [d] == [d];
    } else {
      assert (data + [d])[1..] == data[1..] + [d];
      SelectMore(data[1..], d, keep);
    }
  }

  /** The filter's two passes: one that looks for a marker and leaves early, one that drops what is not
      sent. */
  method FilterFormats(data: seq<Data>, side: Side, force: bool) returns (r: seq<Data>)
    ensures r == Visible(data, force)
  {
    if !force {
      for i := 0 to |data|
        invariant forall k | 0 <= k < i :: !IsMarker(data[k])
      {
        if IsOwnerFormat(data[i]) && IsOwner(data[i].bytes) {
          return [];
        }
      }
    }
    r := [];
    for i := 0 to |data|
      invariant r == Select(data[..i], Sendable)
    {
      SelectMore(data[..i], data[i], Sendable);
      assert data[..i + 1] == data[..i] + [data[i]];
      if Sendable(data[i]) {
        r := r + [data[i]];
      }
    }
    assert data[..|data|] == data;
  }

  class ClipboardContext {
    var board: seq<Data>

    constructor ()
      ensures board == []
    {
      board := [];
    }

    method Set(data: seq<Data>, outcome: Outcome) returns (ok: bool)
      modifies this
      ensures ok <==> outcome.Done?
      ensures board == match outcome { case Done => data case Kept => old(board) case Emptied => []
                                       case Stopped(written) => Remnant(data, written) }
    {
      match outcome
      case Done =>
        board := data;
        ok := true;
      case Kept =>
        ok := false;
      case Emptied =>
        board := [];
        ok := false;
      case Stopped(written) =>
        board := Remnant(data, written);
        ok := false;
    }

    /** An update on behalf of a peer: nothing for an empty message, otherwise marked content, or what
        a failed write leaves. */
    method Update(content: seq<Data>, side: Side, outcome: Outcome)
      modifies this
      ensures forall machine: Machine | machine.board == old(board) ::
                board == UpdateOn(machine, content, side, outcome).board
      ensures board != old(board) && board != [] ==> Marked(board) || outcome.Stopped?
    {
      var data := TransferAll(content);
      if data == [] {
        return;
      }
      data := AppendOwnerMarker(data, side);
      AppendMarks(TransferAll(content), side);
      var ok := Set(data, outcome);
    }

    /** A read to be sent. */
    method Get(fileCopy: bool, side: Side, force: bool) returns (r: seq<Data>)
      ensures r == Readable(fileCopy, board, force)
    {
      var data := FilterFormats(Select(board, d => Supported(fileCopy, d)), side, force);
      if fileCopy {
        for i := 0 to |data|
          invariant forall k | 0 <= k < i :: !data[k].FileUrl?
        {
          if data[i].FileUrl? {
            return [];
          }
        }
      }
      r := data;
    }
  }
}
