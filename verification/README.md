# Character chat commands and the Adhesive Grenade, in Dafny

This project models two pieces of the SWLOR game server.

- **The character chat commands.** These are the `/` commands a player types in chat: `/cdkey`, `/save`, `/skills`, `/endcall`, `/recipes`, `/perks`, `/delete`, `/language`, `/emotestyle`, `/changeitemdescription`, `/concentration`, `/customize` and `/alwayswalk`.
  - The model covers their registration: names, aliases, descriptions, permissions, validators and the target requirement.
  - It covers the validators of `/delete` and `/language`.
  - It covers the actions that hold logic of their own:
    - the two-step `/delete` confirmation with its 30-second window, kept as a `yyyy-MM-dd HH:mm:ss` timestamp;
    - the `/language` help text, the Wookiee restriction and the language lookup;
    - the emote-style and forced-walk toggles;
    - rewriting an item's description;
    - ending or reporting concentration;
    - the DM-possession redirect of `/customize`.
- **The Adhesive Grenade device ability.** The model covers the definitions of its three tiers and the impact rule applied to each creature the explosion reaches.

The model is functional.
- A character is an immutable record (`Character.Character`).
- Each action is a pure function from the character and the command arguments to an outcome.
- Values the engine supplies are parameters:
  - the current time `DateTime.UtcNow`, as .NET ticks (one reading per action);
  - the language list;
  - the active concentration ability;
  - the targeted object;
  - the possessing DM's master;
  - the d100 roll.
- A .NET exception is a `Faulted` outcome rather than a precondition:
  - `DateTime.ParseExact` rejecting a stored string;
  - `AddSeconds` past year 9999;
  - `ElementAt(0)` on a language with no chat names.

Modules:
- `Wrappers` holds `Option`.
- `Text` holds ASCII lower-casing, .NET white space and joining.
- `DateTime` holds the proleptic Gregorian calendar, ticks, and the `yyyy-MM-dd HH:mm:ss` formatter and exact parser.
- `Character` holds the per-character state and local variables.
- `Validation` holds the "first failing check wins, empty string accepts" convention of chat-command validators.
- The remaining modules are one per command, plus `CommandTable` and `AdhesiveGrenade`.

## Model

| member | source | states |
|---|---|---|
| Text.Lower | SWLOR.Game.Server/Feature/ChatCommandDefinition/CharacterChatCommand.cs:126 | `ToLower` keeps the length and lower-cases each character on its own (ASCII letters). |
| Text.IsBlank | SWLOR.Game.Server/Feature/ChatCommandDefinition/CharacterChatCommand.cs:209 | `IsNullOrWhiteSpace`: the empty string is blank, and a string is blank exactly when its first character is white space and the rest is blank. |
| Text.Join | SWLOR.Game.Server/Feature/ChatCommandDefinition/CharacterChatCommand.cs:150 | The newline `Aggregate` of the help lines starts with the first line, and its length is the lines' summed length plus one separator between each two neighbours. |
| Text.JoinIsRightFold | SWLOR.Game.Server/Feature/ChatCommandDefinition/CharacterChatCommand.cs:139-150 | The left fold `a + sep + b` gives the first part followed by `sep` and each further part, in order (the same text the help line's `chatText` loop builds). |
| Text.JoinContainsParts | SWLOR.Game.Server/Feature/ChatCommandDefinition/CharacterChatCommand.cs:150 | Every part appears, as a contiguous piece, in the joined string. |
| Text.LowerIsLowerCase | SWLOR.Game.Server/Feature/ChatCommandDefinition/CharacterChatCommand.cs:126 | Lower-casing the argument yields a lower-case string, and lower-casing again changes nothing. |
| DateTime.ParseExact | SWLOR.Game.Server/Feature/ChatCommandDefinition/CharacterChatCommand.cs:212 | The exact parser accepts a string exactly when it has the shape `dddd-dd-dd dd:dd:dd` with ASCII digits and literal separators and its fields name an existing second; what it yields is a whole-second instant. |
| DateTime.Format | SWLOR.Game.Server/Feature/ChatCommandDefinition/CharacterChatCommand.cs:224 | Writing an instant gives a well-shaped 19-character stamp that scans back to the instant's fields. |
| DateTime.ParseFormat | SWLOR.Game.Server/Feature/ChatCommandDefinition/CharacterChatCommand.cs:212-224 | Formatting an instant as `yyyy-MM-dd HH:mm:ss` and parsing it back gives the instant truncated to the second. |
| DateTime.FormatParse | SWLOR.Game.Server/Feature/ChatCommandDefinition/CharacterChatCommand.cs:212-224 | Every string the exact parser accepts is the formatted form of its own parse: the stored stamp is canonical. |
| DateTime.AddSeconds | SWLOR.Game.Server/Feature/ChatCommandDefinition/CharacterChatCommand.cs:213 | Adding seconds succeeds exactly when the result stays within year 9999, and then moves the instant by that many seconds. |
| Validation.FirstFailureIsFirst | SWLOR.Game.Server/Feature/ChatCommandDefinition/CharacterChatCommand.cs:183-202 | The validator's answer is the message of the first failing check, and it accepts exactly when no check fails. |
| Validation.FailingPrefixDecides | SWLOR.Game.Server/Feature/ChatCommandDefinition/CharacterChatCommand.cs:185-186 | Once an earlier check fails, later checks cannot change the answer. |
| DeleteCommand.Validate | SWLOR.Game.Server/Feature/ChatCommandDefinition/CharacterChatCommand.cs:183-202 | Accepts exactly a non-DM, non-possessed player character who typed its own CD key. Exactly non-players and DMs get the player message, and exactly players with a wrong key the key message. The DM message goes exactly to a possessed, non-DM player character who typed the right key. |
| DeleteCommand.NonPlayerRejectedBeforeKey | SWLOR.Game.Server/Feature/ChatCommandDefinition/CharacterChatCommand.cs:185-191 | A non-player or DM is rejected the same way whatever key it types. |
| DeleteCommand.OnlyExactKeyAccepted | SWLOR.Game.Server/Feature/ChatCommandDefinition/CharacterChatCommand.cs:188-194 | Acceptance implies the first argument equals the CD key. A missing argument counts as the empty key. |
| DeleteCommand.DeleteAction | SWLOR.Game.Server/Feature/ChatCommandDefinition/CharacterChatCommand.cs:203-239 | Deletes exactly when a readable stored submission's 30-second window holds `now`. It faults exactly when the stored stamp cannot be parsed or moved 30 s on; a malformed stamp gives the parse fault. In every other case it records `now`, which reads back as `now` cut to the second. A deletion changes only the deleted flag. |
| DeleteCommand.PendingOf | SWLOR.Game.Server/Feature/ChatCommandDefinition/CharacterChatCommand.cs:205-219 | Classifies the stored stamp: none when it is blank, unreadable when it does not parse or cannot be moved 30 s on, and otherwise a submission that confirms exactly when `now` is at most 30 s after it. |
| DeleteCommand.ConfirmationWindow | SWLOR.Game.Server/Feature/ChatCommandDefinition/CharacterChatCommand.cs:205-219 | After a first submission, a second one deletes if and only if it comes no later than 30 s after the stored whole second. |
| DeleteCommand.WindowBounds | SWLOR.Game.Server/Feature/ChatCommandDefinition/CharacterChatCommand.cs:212-213 | Measured from the real first submission, the window covers at least 29 s and at most 30 s. |
| DeleteCommand.OverflowAborts | SWLOR.Game.Server/Feature/ChatCommandDefinition/CharacterChatCommand.cs:213 | A stored time less than 30 s before the end of year 9999 makes the action abort. |
| DeleteCommand.FirstSubmissionRecords | SWLOR.Game.Server/Feature/ChatCommandDefinition/CharacterChatCommand.cs:205-226 | With no stored submission, one `/delete` never deletes and only records the time. |
| DeleteCommand.TwoStepDeletion | SWLOR.Game.Server/Feature/ChatCommandDefinition/CharacterChatCommand.cs:203-239 | Two `/delete`s at most 29 s apart delete the character. More than 30 s apart, the second restarts the sequence. |
| DeleteCommand.DeletionKeepsSubmission | SWLOR.Game.Server/Feature/ChatCommandDefinition/CharacterChatCommand.cs:227-238 | Deleting leaves the stored timestamp as it was, so every later `/delete` sees the same pending submission as before the deletion, at any time. |
| DeleteCommand.RepeatDeletion | SWLOR.Game.Server/Feature/ChatCommandDefinition/CharacterChatCommand.cs:205-238 | After a deletion, a further `/delete` deletes again exactly when it falls within 30 s of the stored stamp. |
| LanguageCommand.Validate | SWLOR.Game.Server/Feature/ChatCommandDefinition/CharacterChatCommand.cs:115-123 | Accepts exactly when at least one argument is given, and otherwise returns the usage message. |
| LanguageCommand.HelpLine | SWLOR.Game.Server/Feature/ChatCommandDefinition/CharacterChatCommand.cs:139-147 | A help line is the first chat name, then `", "` and each further chat name in order, then `": Sets the active language to "`, the proper name and a full stop. |
| LanguageCommand.HelpLines | SWLOR.Game.Server/Feature/ChatCommandDefinition/CharacterChatCommand.cs:132-148 | The help lines are the header and then one line per language in list order. They are missing exactly when some language has no chat name. |
| LanguageCommand.FirstMatch | SWLOR.Game.Server/Feature/ChatCommandDefinition/CharacterChatCommand.cs:164-172 | Finds the first language whose chat names contain the command, or reports that none does. |
| LanguageCommand.LanguageAction | SWLOR.Game.Server/Feature/ChatCommandDefinition/CharacterChatCommand.cs:124-175 | `help` replies with the newline-joined help lines and changes nothing; it faults exactly when a language lacks chat names. A Wookiee naming anything but Shyriiwook is set to Shyriiwook. A set language answers to the command. A command that no language answers to (from a non-Wookiee, or `shyriiwook` from a Wookiee) replies unknown language and changes nothing. Only the active language ever changes. |
| LanguageCommand.LookupSelectsFirst | SWLOR.Game.Server/Feature/ChatCommandDefinition/CharacterChatCommand.cs:164-171 | When several languages answer to a name, the first one in the list is chosen. |
| LanguageCommand.CaseInsensitive | SWLOR.Game.Server/Feature/ChatCommandDefinition/CharacterChatCommand.cs:126 | The argument's letter case does not change the outcome. |
| LanguageCommand.UpperCaseNameNeverMatches | SWLOR.Game.Server/Feature/ChatCommandDefinition/CharacterChatCommand.cs:164-166 | A chat name containing an upper-case letter can never be selected. |
| LanguageCommand.HelpLineNames | SWLOR.Game.Server/Feature/ChatCommandDefinition/CharacterChatCommand.cs:139-147 | Every chat name of a language and its proper name appear in its help line. |
| LanguageCommand.HelpListsEveryLanguage | SWLOR.Game.Server/Feature/ChatCommandDefinition/CharacterChatCommand.cs:130-150 | When every language has a chat name, `/language help` replies, and every chat name and the proper name of each language appear both in that language's help line and in the text sent. |
| Toggles.ToggleEmoteStyle | SWLOR.Game.Server/Feature/ChatCommandDefinition/CharacterChatCommand.cs:249-251 | The emote style always changes, and nothing else does. |
| Toggles.EmoteToggleInvolution | SWLOR.Game.Server/Feature/ChatCommandDefinition/CharacterChatCommand.cs:249-251 | Toggling twice restores the character. |
| Toggles.ToggleAlwaysWalk | SWLOR.Game.Server/Feature/ChatCommandDefinition/CharacterChatCommand.cs:338-349 | Walking is switched on exactly when the flag was not 1. The flag is rewritten as 1 or 0 to match, and nothing else changes. |
| Toggles.WalkToggleTwice | SWLOR.Game.Server/Feature/ChatCommandDefinition/CharacterChatCommand.cs:338-349 | After one toggle the flag is 0 or 1. A second toggle flips walking and, from a 0/1 flag, restores it. Any other value reads as not walking. |
| ItemDescription.BuildDescription | SWLOR.Game.Server/Feature/ChatCommandDefinition/CharacterChatCommand.cs:272-277 | The loop builds each argument preceded by one space, in order. The length is one per argument plus the argument lengths. |
| ItemDescription.SpacedConcatAppend | SWLOR.Game.Server/Feature/ChatCommandDefinition/CharacterChatCommand.cs:274-277 | The description of a split argument list is the concatenation of the parts' descriptions. |
| ItemDescription.ChangeDescription | SWLOR.Game.Server/Feature/ChatCommandDefinition/CharacterChatCommand.cs:264-280 | The description is set exactly for a valid item the user holds. Otherwise the target is untouched. Only the description changes. |
| ItemDescription.DescriptionExtends | SWLOR.Game.Server/Feature/ChatCommandDefinition/CharacterChatCommand.cs:274-279 | One more argument appends a space and that argument to the description. |
| ItemDescription.NoArgumentsWritesEmpty | SWLOR.Game.Server/Feature/ChatCommandDefinition/CharacterChatCommand.cs:272-279 | With no arguments, the description written to an eligible item is the empty string. |
| ConcentrationCommand.ConcentrationAction | SWLOR.Game.Server/Feature/ChatCommandDefinition/CharacterChatCommand.cs:291-308 | Ends concentration exactly when the first argument lower-cases to `end`. Otherwise it reports none active or the active ability's name. |
| ConcentrationCommand.EndSpellings | SWLOR.Game.Server/Feature/ChatCommandDefinition/CharacterChatCommand.cs:291 | With no argument it never ends. Any spelling of `end` ends. An argument of another length never ends. |
| CustomizeCommand.CustomizeAction | SWLOR.Game.Server/Feature/ChatCommandDefinition/CharacterChatCommand.cs:320-327 | A DM-possessed creature's window opens for its master with the creature as the target. Otherwise it opens for the user with no target. |
| CustomizeCommand.EditsTheUser | SWLOR.Game.Server/Feature/ChatCommandDefinition/CharacterChatCommand.cs:320-327 | On the reading that a window opened with no target edits its owner, the appearance editor always edits the creature that typed the command; when no DM possesses it, that creature also owns the window. |
| CommandTable.LookupFrom | SWLOR.Game.Server/Feature/ChatCommandDefinition/CharacterChatCommand.cs:22-39 | Looking up a name finds a registration listing it, or reports that none does. |
| CommandTable.LookupUnique | SWLOR.Game.Server/Feature/ChatCommandDefinition/CharacterChatCommand.cs:22-39 | With no name registered twice, a name resolves to the one registration that lists it, whatever the merge order. |
| CommandTable.TableKeys | SWLOR.Game.Server/Feature/ChatCommandDefinition/CharacterChatCommand.cs:22-39 | The thirteen registrations give nineteen distinct names. Exactly those resolve, each to its own registration. |
| CommandTable.AliasesShareDetail | SWLOR.Game.Server/Feature/ChatCommandDefinition/CharacterChatCommand.cs:41-351 | Each alias (`recipes`, `perks`, `itemdesc`, `conc`, `customise`, `walk`) resolves to the same command as its first name. |
| CommandTable.DeclaredPolicies | SWLOR.Game.Server/Feature/ChatCommandDefinition/CharacterChatCommand.cs:41-351 | Only `/delete` and `/language` have validators, and only `/changeitemdescription` needs a target. Save and the menus are player-only, `/endcall` is for players, DMs and admins, and the rest are for all levels. |
| AdhesiveGrenade.Definition | SWLOR.Game.Server/Feature/AbilityDefinition/Devices/AdhesiveGrenadeAbilityDefinition.cs:44-108 | Each tier's level is its rank. |
| AdhesiveGrenade.SharedSettings | SWLOR.Game.Server/Feature/AbilityDefinition/Devices/AdhesiveGrenadeAbilityDefinition.cs:44-108 | All tiers share the Grenades recast group, the 30 s recast, the 1 s delay, the 15 m range, the explosive validation, the animation and the perk. They are casted and unaffected by heavy armor, with a distinct feat each. |
| AdhesiveGrenade.RisesWithTier | SWLOR.Game.Server/Feature/AbilityDefinition/Devices/AdhesiveGrenadeAbilityDefinition.cs:44-108 | A higher tier has a strictly higher level, stamina cost, immobilize chance and effect length. |
| AdhesiveGrenade.Impact | SWLOR.Game.Server/Feature/AbilityDefinition/Devices/AdhesiveGrenadeAbilityDefinition.cs:26-42 | Allies are skipped. Anyone else is immobilized exactly when the roll is at most the chance, and slowed otherwise, for the given time. The activator gains 3 Devices combat points and 150 enmity. |
| AdhesiveGrenade.TierOneNeverImmobilizes | SWLOR.Game.Server/Feature/AbilityDefinition/Devices/AdhesiveGrenadeAbilityDefinition.cs:57-62 | With a d100 roll, tier I never immobilizes and always slows a non-ally for 4 s. |
| AdhesiveGrenade.ChanceMonotone | SWLOR.Game.Server/Feature/AbilityDefinition/Devices/AdhesiveGrenadeAbilityDefinition.cs:31-38 | For a fixed roll, a higher chance immobilizes whenever a lower one does. |
| AdhesiveGrenade.TierMonotone | SWLOR.Game.Server/Feature/AbilityDefinition/Devices/AdhesiveGrenadeAbilityDefinition.cs:57-107 | A higher tier immobilizes whenever a lower one does on the same roll. |
| AdhesiveGrenade.ImmobilizeOdds | SWLOR.Game.Server/Feature/AbilityDefinition/Devices/AdhesiveGrenadeAbilityDefinition.cs:31-38 | Exactly `chance` of the hundred d100 results immobilize, with the chance capped to 0..100. |
| AdhesiveGrenade.TierOdds | SWLOR.Game.Server/Feature/AbilityDefinition/Devices/AdhesiveGrenadeAbilityDefinition.cs:57-107 | Each tier immobilizes on exactly as many rolls out of 100 as its chance. |

## Left out

- `ChatCommandBuilder`, the command registry, permission checks, target selection and dispatch are not part of this model. The table is the declared data of each registration. Lookup is the first registration listing a name. Because no name is registered twice, that is what any merge gives.
- The actions of `/cdkey`, `/save`, `/skills`, `/endcall`, `/recipes` and `/perks` are engine calls only: sending a message, exporting the character, toggling a GUI window, ending a HoloCom call. Only their registrations are modelled.
- Messages sent to the player, floating text and colour tokens are left out. Outcomes are named replies; the validators' message strings are kept.
- Database writes and the administration plugin calls of `/delete` are left out. Deletion is the character's `isDeleted` flag.
- `Text.LowerChar` covers ASCII letters only. `ToLower` uses the current culture and also lower-cases non-ASCII letters.
- `DateTime.ParseExact` covers only the invariant-culture `yyyy-MM-dd HH:mm:ss` pattern with no surrounding white space, which is the only pattern used.
- `DateTime.AddSeconds` takes whole seconds, the only amount used (30).
- `AdhesiveGrenade.Definition`: durations, ranges and delays are whole numbers, although the source passes them as `float`. Every value used is whole.
- `ExplosiveImpact`, `ExplosiveValidation`, the visual effect, and the search for creatures in the blast radius are left out. `AdhesiveGrenade.Impact` is the rule applied to each creature found. The d100 roll and `GetFactionEqual` are parameters.
- The concentration ability's own behaviour (`EndConcentrationAbility`, `GetAbilityDetail`) is left out. `ConcentrationCommand.ConcentrationAction` returns the decision and the active ability's name.
- Several steps are outside the source file and appear here only as a flag or a field written:
  - `SetAlwaysWalk` is the `alwaysWalk` field.
  - `SetEmoteStyle` is the `emoteStyle` field.
  - `SetActiveLanguage` is the `activeLanguage` field.
  - `SetDescription` is the target's description field, written as given.
- `/delete` never clears the stored timestamp, so after a deletion a further `/delete` inside the window deletes again instead of starting a new sequence (`DeleteCommand.DeletionKeepsSubmission`, `DeleteCommand.RepeatDeletion`). Those lemmas treat the character as still able to issue commands; `DeletePlayerCharacter`, which removes it from the game, is not part of this model.
- DeleteCommand.DeleteAction: uses one instant `now` both for the window comparison and for the stamp it records, where the source reads `DateTime.UtcNow` twice (lines 213 and 224); the two readings can differ by the time between those lines.
- ItemDescription.NoArgumentsWritesEmpty: states only that the empty string is written. The game engine reads an empty description as a request to restore the object's original description, and that engine behaviour is not part of this model, so `/changeitemdescription` with no arguments is not shown to restore anything.
- CustomizeCommand.EditsTheUser: rests on the reading that an `OBJECT_INVALID` target makes the appearance editor edit the window's owner. That is behaviour of `Gui.TogglePlayerWindow`, which is not part of this model; `CustomizeCommand.CustomizeAction` states only the arguments the source passes.
