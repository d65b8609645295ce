/** The `/customize` chat command (alias `/customise`): it opens the
    appearance editor. When a DM possesses a creature, the window opens for
    the DM's own player while the creature is the one being edited. */
module CustomizeCommand {
  import opened Wrappers
  import opened Character

  /** The arguments of `TogglePlayerWindow`: whose window opens, and the
      object passed as its target (`None` for `OBJECT_INVALID`). */
  datatype WindowRequest = WindowRequest(owner: nat, uiTarget: Option<nat>)

  /** The creature the appearance editor edits for a request, on the
      reading that a window opened with no target edits its owner. */
  function EditedCreature(r: WindowRequest): nat
  {
    match r.uiTarget
    case Some(target) => target
    case None => r.owner
  }

  /** The `/customize` action; `master` is `GetMaster(user)`. */
  function CustomizeAction(user: Character, master: nat): (r: WindowRequest)
    ensures user.isDMPossessed ==> r.owner == master && r.uiTarget == Some(user.id)
    ensures !user.isDMPossessed ==> r.owner == user.id && r.uiTarget == None
  {
    if user.isDMPossessed then WindowRequest(master, Some(user.id))
    else WindowRequest(user.id, None)
  }

  /** Whoever typed the command, the editor always edits the creature that
      typed it; only the window's owner differs for a possessed creature. */
  lemma EditsTheUser(user: Character, master: nat)
    ensures EditedCreature(CustomizeAction(user, master)) == user.id
    ensures !user.isDMPossessed ==> CustomizeAction(user, master).owner == EditedCreature(CustomizeAction(user, master))
  {
  }
}
