/** Key chords, editor actions and the default key table (crates/editor/src/keymap.rs). */
module EditorKeymap {
  import opened Wrappers

  datatype KeyCode = Char(c: char) | Enter | Backspace | Delete | Left | Right | Up | Down | Home | End | Tab

  datatype KeyModifiers = KeyModifiers(ctrl: bool, alt: bool, shift: bool, meta: bool)

  /** `KeyModifiers::default()`: no modifier held. */
  const NoMods := KeyModifiers(false, false, false, false)
  const CtrlMods := KeyModifiers(true, false, false, false)
  const ShiftMods := KeyModifiers(false, false, true, false)

  datatype KeyChord = KeyChord(code: KeyCode, mods: KeyModifiers)

  datatype Movement = Left | Right | Up | Down | WordLeft | WordRight | LineStart | LineEnd

  datatype KeyAction =
    | Newline | Backspace | Delete | DeleteWordBackward | DeleteWordForward | DeleteLine
    | Undo | Redo | Copy | Cut | Paste | Indent | Outdent | DuplicateLine | ToggleComment
    | Move(movement: Movement, extend: bool)

  /** A chord-to-action table; `Keymap::default()` is the empty one. */
  datatype Keymap = Keymap(bindings: map<KeyChord, KeyAction>)

  /** `Keymap::resolve`: the action bound to the chord, if any. */
  function Resolve(k: Keymap, chord: KeyChord): (r: Option<KeyAction>)
    ensures r.Some? <==> chord in k.bindings
    ensures r.Some? ==> r.value == k.bindings[chord]
  {
    if chord in k.bindings then Some(k.bindings[chord]) else None
  }

  /** The derived default keymap resolves nothing. */
  lemma EmptyKeymapResolvesNothing(chord: KeyChord)
    ensures Resolve(Keymap(map[]), chord) == None
  {
  }

  /** The chords the default table binds. */
  function DefaultChords(): set<KeyChord>
  {
    {KeyChord(KeyCode.Enter, NoMods), KeyChord(KeyCode.Backspace, NoMods), KeyChord(KeyCode.Delete, NoMods),
     KeyChord(KeyCode.Left, NoMods), KeyChord(KeyCode.Right, NoMods), KeyChord(KeyCode.Up, NoMods),
     KeyChord(KeyCode.Down, NoMods), KeyChord(KeyCode.Left, CtrlMods), KeyChord(KeyCode.Right, CtrlMods),
     KeyChord(Home, NoMods), KeyChord(End, NoMods), KeyChord(Char('z'), CtrlMods),
     KeyChord(Char('y'), CtrlMods), KeyChord(Char('c'), CtrlMods), KeyChord(Char('x'), CtrlMods),
     KeyChord(Char('v'), CtrlMods), KeyChord(Tab, NoMods), KeyChord(Tab, ShiftMods)}
  }

  /** The default table as one map. */
  function DefaultTable(): map<KeyChord, KeyAction>
  {
    map[KeyChord(KeyCode.Enter, NoMods) := Newline,
        KeyChord(KeyCode.Backspace, NoMods) := KeyAction.Backspace,
        KeyChord(KeyCode.Delete, NoMods) := KeyAction.Delete,
        KeyChord(KeyCode.Left, NoMods) := Move(Movement.Left, false),
        KeyChord(KeyCode.Right, NoMods) := Move(Movement.Right, false),
        KeyChord(KeyCode.Up, NoMods) := Move(Movement.Up, false),
        KeyChord(KeyCode.Down, NoMods) := Move(Movement.Down, false),
        KeyChord(KeyCode.Left, CtrlMods) := Move(WordLeft, false),
        KeyChord(KeyCode.Right, CtrlMods) := Move(WordRight, false),
        KeyChord(Home, NoMods) := Move(LineStart, false),
        KeyChord(End, NoMods) := Move(LineEnd, false),
        KeyChord(Char('z'), CtrlMods) := Undo,
        KeyChord(Char('y'), CtrlMods) := Redo,
        KeyChord(Char('c'), CtrlMods) := Copy,
        KeyChord(Char('x'), CtrlMods) := Cut,
        KeyChord(Char('v'), CtrlMods) := Paste,
        KeyChord(Tab, NoMods) := Indent,
        KeyChord(Tab, ShiftMods) := Outdent]
  }

  /** The table binds exactly the default chords. */
  lemma DefaultTableKeys()
    ensures DefaultTable().Keys == DefaultChords()
  {
  }

  /** The editing and indentation chords of the table. */
  lemma DefaultTableEdits()
    ensures var k := Keymap(DefaultTable());
      Resolve(k, KeyChord(KeyCode.Enter, NoMods)) == Some(Newline) &&
      Resolve(k, KeyChord(KeyCode.Backspace, NoMods)) == Some(KeyAction.Backspace) &&
      Resolve(k, KeyChord(KeyCode.Delete, NoMods)) == Some(KeyAction.Delete) &&
      Resolve(k, KeyChord(Tab, NoMods)) == Some(Indent) &&
      Resolve(k, KeyChord(Tab, ShiftMods)) == Some(Outdent)
  {
  }

  /** The arrow chords of the table. */
  lemma DefaultTableMoves()
    ensures var k := Keymap(DefaultTable());
      Resolve(k, KeyChord(KeyCode.Left, NoMods)) == Some(Move(Movement.Left, false)) &&
      Resolve(k, KeyChord(KeyCode.Right, NoMods)) == Some(Move(Movement.Right, false)) &&
      Resolve(k, KeyChord(KeyCode.Up, NoMods)) == Some(Move(Movement.Up, false)) &&
      Resolve(k, KeyChord(KeyCode.Down, NoMods)) == Some(Move(Movement.Down, false))
  {
  }

  /** The word and line movement chords of the table. */
  lemma DefaultTableJumps()
    ensures var k := Keymap(DefaultTable());
      Resolve(k, KeyChord(KeyCode.Left, CtrlMods)) == Some(Move(WordLeft, false)) &&
      Resolve(k, KeyChord(KeyCode.Right, CtrlMods)) == Some(Move(WordRight, false)) &&
      Resolve(k, KeyChord(Home, NoMods)) == Some(Move(LineStart, false)) &&
      Resolve(k, KeyChord(End, NoMods)) == Some(Move(LineEnd, false))
  {
  }

  /** The history and clipboard chords of the table. */
  lemma DefaultTableCommands()
    ensures var k := Keymap(DefaultTable());
      Resolve(k, KeyChord(Char('z'), CtrlMods)) == Some(Undo) &&
      Resolve(k, KeyChord(Char('y'), CtrlMods)) == Some(Redo) &&
      Resolve(k, KeyChord(Char('c'), CtrlMods)) == Some(Copy) &&
      Resolve(k, KeyChord(Char('x'), CtrlMods)) == Some(Cut) &&
      Resolve(k, KeyChord(Char('v'), CtrlMods)) == Some(Paste)
  {
  }

  /** `Keymap::with_defaults`: the eighteen default bindings, inserted one by one. */
  method WithDefaults() returns (k: Keymap)
    ensures k.bindings.Keys == DefaultChords()
    ensures Resolve(k, KeyChord(KeyCode.Enter, NoMods)) == Some(Newline)
    ensures Resolve(k, KeyChord(KeyCode.Backspace, NoMods)) == Some(KeyAction.Backspace)
    ensures Resolve(k, KeyChord(KeyCode.Delete, NoMods)) == Some(KeyAction.Delete)
    ensures Resolve(k, KeyChord(KeyCode.Left, NoMods)) == Some(Move(Movement.Left, false))
    ensures Resolve(k, KeyChord(KeyCode.Right, NoMods)) == Some(Move(Movement.Right, false))
    ensures Resolve(k, KeyChord(KeyCode.Up, NoMods)) == Some(Move(Movement.Up, false))
    ensures Resolve(k, KeyChord(KeyCode.Down, NoMods)) == Some(Move(Movement.Down, false))
    ensures Resolve(k, KeyChord(KeyCode.Left, CtrlMods)) == Some(Move(WordLeft, false))
    ensures Resolve(k, KeyChord(KeyCode.Right, CtrlMods)) == Some(Move(WordRight, false))
    ensures Resolve(k, KeyChord(Home, NoMods)) == Some(Move(LineStart, false))
    ensures Resolve(k, KeyChord(End, NoMods)) == Some(Move(LineEnd, false))
    ensures Resolve(k, KeyChord(Char('z'), CtrlMods)) == Some(Undo)
    ensures Resolve(k, KeyChord(Char('y'), CtrlMods)) == Some(Redo)
    ensures Resolve(k, KeyChord(Char('c'), CtrlMods)) == Some(Copy)
    ensures Resolve(k, KeyChord(Char('x'), CtrlMods)) == Some(Cut)
    ensures Resolve(k, KeyChord(Char('v'), CtrlMods)) == Some(Paste)
    ensures Resolve(k, KeyChord(Tab, NoMods)) == Some(Indent)
    ensures Resolve(k, KeyChord(Tab, ShiftMods)) == Some(Outdent)
  {
    var b: map<KeyChord, KeyAction> := map[];
    b := b[KeyChord(KeyCode.Enter, NoMods) := Newline];
    b := b[KeyChord(KeyCode.Backspace, NoMods) := KeyAction.Backspace];
    b := b[KeyChord(KeyCode.Delete, NoMods) := KeyAction.Delete];
    b := b[KeyChord(KeyCode.Left, NoMods) := Move(Movement.Left, false)];
    b := b[KeyChord(KeyCode.Right, NoMods) := Move(Movement.Right, false)];
    b := b[KeyChord(KeyCode.Up, NoMods) := Move(Movement.Up, false)];
    b := b[KeyChord(KeyCode.Down, NoMods) := Move(Movement.Down, false)];
    b := b[KeyChord(KeyCode.Left, CtrlMods) := Move(WordLeft, false)];
    b := b[KeyChord(KeyCode.Right, CtrlMods) := Move(WordRight, false)];
    b := b[KeyChord(Home, NoMods) := Move(LineStart, false)];
    b := b[KeyChord(End, NoMods) := Move(LineEnd, false)];
    b := b[KeyChord(Char('z'), CtrlMods) := Undo];
    b := b[KeyChord(Char('y'), CtrlMods) := Redo];
    b := b[KeyChord(Char('c'), CtrlMods) := Copy];
    b := b[KeyChord(Char('x'), CtrlMods) := Cut];
    b := b[KeyChord(Char('v'), CtrlMods) := Paste];
    b := b[KeyChord(Tab, NoMods) := Indent];
    b := b[KeyChord(Tab, ShiftMods) := Outdent];
    k := Keymap(b);
    assert b == DefaultTable();
    DefaultTableKeys();
    DefaultTableEdits();
    DefaultTableMoves();
    DefaultTableJumps();
    DefaultTableCommands();
  }
}
