/**
 * The keyboard shortcuts of the two verse forms. The editor form
 * (src/components/HymnEditor/_components/IndividualVerseForm/IndividualVerseForm.tsx)
 * saves on Enter or `s` with the platform's modifier; the features form
 * (src/features/HymnForm/IndividualVerseForm/IndividualVerseForm.tsx) saves
 * on Enter only. In both, Shift saves every line instead of the focused one.
 * Which platform is running is a parameter.
 */
module VerseKeys {
  /** A key press: the key's name and the modifiers held. */
  datatype KeyPress = KeyPress(key: string, meta: bool, ctrl: bool, shift: bool)

  /** Which lines a key press saves: none, every line, or the focused line. */
  datatype SaveScope = NoSave | AllLines | OneLine(idx: nat)

  /**
   * What a key press does: the lines it saves, and whether it stops the
   * event's propagation and the browser's default action.
   */
  datatype KeyEffect = KeyEffect(save: SaveScope, suppressed: bool)

  /** A key press that does nothing at all. */
  const Ignored: KeyEffect := KeyEffect(NoSave, false)

  /** The modifier that counts on the platform: Command on macOS, Control elsewhere. */
  predicate PlatformModifier(k: KeyPress, isMac: bool) {
    (isMac && k.meta) || (!isMac && k.ctrl)
  }

  /**
   * `handleKeydown(idx)` of the editor form: the event is suppressed as soon
   * as a save key comes with either modifier and there are changes, before
   * the platform's modifier is checked, so every save it makes is suppressed.
   */
  function EditorKeydown(k: KeyPress, isMac: bool, canSave: bool, idx: nat): (e: KeyEffect)
    ensures e.save != NoSave <==>
              (k.key == "Enter" || k.key == "s") && canSave && PlatformModifier(k, isMac)
    ensures e.save == AllLines ==> k.shift
    ensures e.save.OneLine? ==> !k.shift && e.save.idx == idx
    ensures e.suppressed <==> (k.key == "Enter" || k.key == "s") && canSave && (k.meta || k.ctrl)
    ensures e.save != NoSave ==> e.suppressed
  {
    var saveOptions := ["Enter", "s"];
    var directions := ["ArrowRight", "ArrowLeft"];
    if k.key !in saveOptions + directions then Ignored
    else if k.key !in saveOptions then Ignored
    else if !(k.meta || k.ctrl) then Ignored
    else if !canSave then Ignored
    else if !PlatformModifier(k, isMac) then KeyEffect(NoSave, true)
    else if k.shift then KeyEffect(AllLines, true)
    else KeyEffect(OneLine(idx), true)
  }

  /** `handleEnter(idx)` of the features form: it never stops the event. */
  function FeaturesKeydown(k: KeyPress, isMac: bool, canSave: bool, idx: nat): (e: KeyEffect)
    ensures e.save != NoSave <==> k.key == "Enter" && canSave && PlatformModifier(k, isMac)
    ensures e.save == AllLines ==> k.shift
    ensures e.save.OneLine? ==> !k.shift && e.save.idx == idx
    ensures !e.suppressed
  {
    if k.key != "Enter" then Ignored
    else if !canSave then Ignored
    else if !PlatformModifier(k, isMac) then Ignored
    else if k.shift then KeyEffect(AllLines, false)
    else KeyEffect(OneLine(idx), false)
  }

  /**
   * On Enter the two forms save the same lines; the editor also stops the
   * event whenever there are changes and either modifier is held, and the
   * features form never does.
   */
  lemma EnterSavesAlike(k: KeyPress, isMac: bool, canSave: bool, idx: nat)
    requires k.key == "Enter"
    ensures var e := EditorKeydown(k, isMac, canSave, idx);
            var g := FeaturesKeydown(k, isMac, canSave, idx);
            && e.save == g.save
            && (e.suppressed <==> canSave && (k.meta || k.ctrl))
            && !g.suppressed
  {
  }

  /** The arrow keys are accepted by the editor's key filter but do nothing. */
  lemma ArrowsDoNothing(k: KeyPress, isMac: bool, canSave: bool, idx: nat)
    requires k.key == "ArrowRight" || k.key == "ArrowLeft"
    ensures EditorKeydown(k, isMac, canSave, idx) == Ignored
  {
    assert k.key != "Enter" && k.key != "s";
  }
}
