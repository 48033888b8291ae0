/**
 * The keyboard side of the editor in main.py: the six modes of input_mode.py,
 * what a key code means in each mode, and the mode it leaves behind.
 */
module Keys {
  import opened Wrappers
  import opened Editing

  /** The six editor modes of input_mode.py. */
  datatype InputMode = Default | SetKey | Move | Resize | Group | Priority

  /** `cv2.waitKey` reports -1 when no key was pressed. */
  const NoKey: int := -1
  const EnterKey: int := 13

  /** The modes that consume the next key and fall back to `Default`. */
  predicate OneShot(mode: InputMode) {
    mode == SetKey || mode == Group || mode == Priority
  }

  /** `int(chr(key))` for a single character: only the ASCII digits parse. */
  function ParseDigit(key: int): (d: Option<int>)
    ensures d.Some? <==> '0' as int <= key <= '9' as int
    ensures d.Some? ==> 0 <= d.value <= 9 && d.value + '0' as int == key
  {
    if '0' as int <= key <= '9' as int then Some(key - '0' as int) else None
  }

  /** What `key_pressed` does with a key code. */
  datatype Command =
    | Ignore                    // no key this frame
    | EditAt(edit: Edit)        // a one-shot mode applies its edit under the pointer
    | Rejected                  // a one-shot group/priority mode got a non-digit
    | SwitchTo(mode: InputMode) // '1', '4', '5', '6', '8', '9'
    | Create                    // '2'
    | Destroy                   // '3'
    | Invert                    // '7'
    | Load                      // '-'
    | Save                      // '='
    | ToggleArmed               // Enter: capture or drop the background
    | Unbound                   // any other key

  /** The dispatch of `key_pressed`: first the one-shot modes, then the command keys. */
  function Decode(mode: InputMode, key: int): (c: Command)
    ensures key == NoKey <==> c == Ignore
    ensures OneShot(mode) && key != NoKey <==> c.EditAt? || c == Rejected
    ensures c == Rejected <==> (mode == Group || mode == Priority) && key != NoKey && ParseDigit(key).None?
  {
    if key == NoKey then Ignore
    else if mode == SetKey then EditAt(SetKeyTo(key))
    else if mode == Group then
      match ParseDigit(key)
      case None => Rejected
      case Some(d) => EditAt(SetGroupTo(d))
    else if mode == Priority then
      match ParseDigit(key)
      case None => Rejected
      case Some(d) => EditAt(SetPriorityTo(d))
    else if key == '1' as int then SwitchTo(Default)
    else if key == '2' as int then Create
    else if key == '3' as int then Destroy
    else if key == '4' as int then SwitchTo(Move)
    else if key == '5' as int then SwitchTo(Resize)
    else if key == '6' as int then SwitchTo(SetKey)
    else if key == '7' as int then Invert
    else if key == '8' as int then SwitchTo(Group)
    else if key == '9' as int then SwitchTo(Priority)
    else if key == '-' as int then Load
    else if key == '=' as int then Save
    else if key == EnterKey then ToggleArmed
    else Unbound
  }

  /** The command keys that act on zones: '2', '3', '7', '-' and '='. */
  const EditingKeys: set<int> := {'2' as int, '3' as int, '7' as int, '-' as int, '=' as int}

  /** The commands that leave the zones and groups alone. */
  predicate Inert(c: Command) {
    c.SwitchTo? || c == Ignore || c == Rejected || c == Save || c == ToggleArmed || c == Unbound
  }

  /** The mode after `key_pressed`. */
  function NextMode(mode: InputMode, key: int): (m: InputMode)
    ensures key == NoKey ==> m == mode
    ensures Decode(mode, key).SwitchTo? ==> m == Decode(mode, key).mode
    ensures m != mode && !Decode(mode, key).SwitchTo? ==> m == Default
  {
    match Decode(mode, key)
    case EditAt(_) => Default
    case Rejected => Default
    case SwitchTo(m) => m
    case ToggleArmed => Default
    case _ => mode
  }

  /**
   * Outside the one-shot modes each editing key has its own command, and
   * every other key leaves the zones alone.
   */
  lemma EditingKeyCommands(mode: InputMode, key: int)
    requires !OneShot(mode) && key != NoKey
    ensures Decode(mode, key) == Create <==> key == '2' as int
    ensures Decode(mode, key) == Destroy <==> key == '3' as int
    ensures Decode(mode, key) == Invert <==> key == '7' as int
    ensures Decode(mode, key) == Load <==> key == '-' as int
    ensures Decode(mode, key) == Save <==> key == '=' as int
    ensures key !in EditingKeys ==> Inert(Decode(mode, key))
  {
  }

  /** No key leaves the mode as it is. */
  lemma NoKeyKeepsMode(mode: InputMode)
    ensures NextMode(mode, NoKey) == mode
  {
  }

  /** A one-shot mode consumes any real key and always falls back to `Default`. */
  lemma OneShotFallsBack(mode: InputMode, key: int)
    requires OneShot(mode) && key != NoKey
    ensures NextMode(mode, key) == Default
    ensures !Decode(mode, key).SwitchTo? && !Decode(mode, key).Create? && !Decode(mode, key).Destroy?
    ensures !Decode(mode, key).Invert? && !Decode(mode, key).Load? && !Decode(mode, key).Save?
    ensures Decode(mode, key) != ToggleArmed
  {
  }

  /** Outside the one-shot modes the digit keys select the modes. */
  lemma DigitsSelectModes(mode: InputMode)
    requires !OneShot(mode)
    ensures NextMode(mode, '1' as int) == Default
    ensures NextMode(mode, '4' as int) == Move
    ensures NextMode(mode, '5' as int) == Resize
    ensures NextMode(mode, '6' as int) == SetKey
    ensures NextMode(mode, '8' as int) == Group
    ensures NextMode(mode, '9' as int) == Priority
  {
  }

  /**
   * A one-shot mode is reached only by its own key from a mode that is not
   * one-shot, or kept when no key comes.
   */
  lemma EnteringOneShot(mode: InputMode, key: int)
    ensures NextMode(mode, key) == SetKey <==> (mode == SetKey && key == NoKey) || (!OneShot(mode) && key == '6' as int)
    ensures NextMode(mode, key) == Group <==> (mode == Group && key == NoKey) || (!OneShot(mode) && key == '8' as int)
    ensures NextMode(mode, key) == Priority <==> (mode == Priority && key == NoKey) || (!OneShot(mode) && key == '9' as int)
  {
  }
}
