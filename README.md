# obs-scene-switcher, modelled in Dafny

This project models the sequential logic of the obs-scene-switcher OBS Studio
plugin. The plugin switches the active OBS scene when a Twitch Channel Points
reward is redeemed. The model proves properties about each piece:

- **Update check** (`update_checker.dfy`, module `UpdateChecker`).
  - Version strings are split on '.' the way `std::getline` splits them.
  - Each piece is read with `std::stoi`, including its 32-bit range check and its exception. A rejected piece becomes 0.
  - Two versions are compared component by component with zero padding, which is a lexicographic order.
  - The `v` prefix of a release tag is stripped.
  - An update is announced only for a strictly newer release.
- **Translation table** (`locale_manager.dfy`, module `Locale`).
  - A locale file is given as its sequence of lines. Each line is trimmed.
  - Blank lines and `#` comments are skipped.
  - A line is split at its first '=' and one pair of surrounding quotes is removed from the value.
  - Lines fill a map in which the last line for a key wins.
  - `translate(key, fallback)` falls back to the fallback text, and then to the key itself.
- **Scene enumeration and switching** (`scene_switcher.dfy`, module `Scenes`).
  - The OBS frontend is a class: its scenes in enumeration order, the current scene, and a trace of set-current calls.
  - Switching selects the first scene whose name matches exactly and stops there. With no match it does nothing.
- **Rule editor rows** (`rule_row.dfy`, module `RuleRows`, over the Qt widget values of `widgets.dfy`, module `Widgets`).
  - Each combo box is a sequence of (text, datum) items plus a current index.
  - The source box starts with the "Any" sentinel.
  - Selections are restored after the lists are rebuilt.
  - A rule is selected by reward id.
  - Seconds are bounded to [0, 86400], with default 10. The enabled box is checked by default.
- **Settings window** (`settings_window.dfy`, module `Settings`).
  - The ordered list of rule rows supports append and remove-first-occurrence.
  - New scene and reward lists are pushed to every row.
  - `saveRules` builds a reward-id → rule map. It skips null and incomplete rows, and the last row with an id wins. The generic last-wins fold is in `rules.dfy`, module `Rules`, which also holds the `RewardRule` record.
- **Plugin controller** (`plugin_controller.dfy`, module `Plugin`).
  - The singleton slot.
  - The authenticated and EventSub-connected flags, and the stored tokens.
  - Logout.
  - Routing a redemption through the reward → scene map.
- **OAuth callback listener** (`http_server.dfy`, module `OAuthCallback`).
  - The running flag and the stored callback.
  - Extraction of the `code` value from `GET /callback?code=...` up to the next space.
  - One pass of the accept loop over at most 4096 received characters.

`text.dfy` (module `Text`) holds `indexOf` and `std::string::find`.
`wrappers.dfy` (module `Wrappers`) holds `Option`.

Facts about the code that the model follows:

- Redemptions are routed through a reward → scene map (`Plugin.ObsSceneSwitcher.OnRedemptionReceived`).
  No code scans the rules, filters on the enabled flag or checks the source scene.
- `saveRules` keeps the last row per reward id and ignores the enabled flag (`Settings.SavedLastWins`).
- `RewardRule` has no `enabled` field in `src/core/reward_rule.hpp`, but the row code reads and writes one. The model's `Rules.RewardRule` carries it.
- Some headers disagree with their `.cpp` files. The model follows the `.cpp`:
  - `rule_row.hpp` names the source box `currentSceneBox_`.
  - `obs_scene_switcher.hpp` lacks the `oauth_` member.

## Model

| member | source | states |
|---|---|---|
| UpdateChecker.Stoi | src/update/update_checker.cpp:175 | a value `std::stoi` accepts always lies in the 32-bit `int` range; `None` stands for the exception it throws |
| UpdateChecker.StoiOfWritten | src/update/update_checker.cpp:175 | on leading whitespace, an optional sign, at least one digit and a tail not starting with a digit, `std::stoi` gives the signed value of the digits when it fits in an `int` and throws otherwise; the tail is ignored ("1rc2" reads as 1) |
| UpdateChecker.StoiOfSignedDigits | src/update/update_checker.cpp:175 | after the whitespace, the sign and the digit run alone decide the result, whatever follows them |
| UpdateChecker.StoiOfUnpadded | src/update/update_checker.cpp:175 | after the whitespace a sign is read once and the run of digits after it is the magnitude |
| UpdateChecker.SkipSpacesPadded | src/update/update_checker.cpp:175 | the leading whitespace `std::stoi` skips is exactly the whitespace prefix |
| UpdateChecker.DigitRunOfDigits | src/update/update_checker.cpp:175 | the digits read stop exactly where the first non-digit begins |
| UpdateChecker.StoiOfDecimal | src/update/update_checker.cpp:175 | the decimal spelling of any n ≤ INT_MAX is read back as exactly n, so a numeric piece keeps its value |
| UpdateChecker.RejectedPieceIsZero | src/update/update_checker.cpp:174-178 | a piece with no digit at all (empty, or letters) is rejected by `stoi` and recorded as 0 instead of aborting the parse |
| UpdateChecker.NoLeadingDigitIsZero | src/update/update_checker.cpp:174-178 | a piece whose first character after whitespace and one optional sign is not a digit ("rc1", "+-1", "- 1") is rejected by `stoi` and recorded as 0, whatever digits follow |
| UpdateChecker.Pieces | src/update/update_checker.cpp:170-173 | `getline` yields no piece exactly for the empty string |
| UpdateChecker.PiecesHaveNoDot | src/update/update_checker.cpp:173 | no piece `getline` produces contains the '.' separator |
| UpdateChecker.PiecesAfterDot | src/update/update_checker.cpp:173 | a '.'-terminated first piece is followed by the pieces of the remainder, in order |
| UpdateChecker.JoinPieces | src/update/update_checker.cpp:173 | joining the pieces with '.' (plus a final '.' when the string ends with one) rebuilds the string, so splitting loses nothing and keeps the order |
| UpdateChecker.Components | src/update/update_checker.cpp:173-179 | one integer per piece, in the same order, each the piece's `stoi` value or 0 |
| UpdateChecker.ParseVersion | src/update/update_checker.cpp:167-182 | the character loop yields exactly the component list of the '.'-split version |
| UpdateChecker.NewerParts | src/update/update_checker.cpp:152-164 | equal component lists are never "newer" |
| UpdateChecker.NewerPartsIsFirstDifference | src/update/update_checker.cpp:152-164 | "newer" holds iff at the first position where the zero-padded lists differ, latest's component is larger |
| UpdateChecker.NewerHasFirstDifference | src/update/update_checker.cpp:153-161 | a "newer" answer always comes from a first differing component that is larger in latest |
| UpdateChecker.FirstDifferenceIsNewer | src/update/update_checker.cpp:153-161 | a first differing component that is larger in latest always yields "newer" |
| UpdateChecker.NewerAfterEqualPrefix | src/update/update_checker.cpp:153-162 | equal leading components do not decide the comparison: it is decided by what follows |
| UpdateChecker.NewerIrreflexive | src/update/update_checker.cpp:157-164 | a version is never newer than itself |
| UpdateChecker.NewerAsymmetric | src/update/update_checker.cpp:157-164 | two versions are never each newer than the other |
| UpdateChecker.NewerTransitive | src/update/update_checker.cpp:152-164 | "newer" is transitive, so it is a strict order on versions |
| UpdateChecker.TrailingZeroIgnored | src/update/update_checker.cpp:152-155 | a trailing 0 component changes no comparison in either direction ("1.2" vs "1.2.0") |
| UpdateChecker.TrailingZeroOnEmpty | src/update/update_checker.cpp:152-155 | the version "0" compares like the empty version on both sides |
| UpdateChecker.CompareParts | src/update/update_checker.cpp:152-164 | the index loop with early returns decides exactly the lexicographic "newer" relation |
| UpdateChecker.IsNewerVersion | src/update/update_checker.cpp:146-165 | comparing two version strings is comparing their parsed components |
| UpdateChecker.StripVersionPrefix | src/update/update_checker.cpp:133-137 | a tag starting with 'v' loses exactly that character; any other tag, the empty one included, is unchanged |
| UpdateChecker.StripRemovesOneV | src/update/update_checker.cpp:133-137 | only one 'v' is removed: "vv1" becomes "v1" |
| UpdateChecker.ReleaseFromTag | src/update/update_checker.cpp:129-137 | the fetched release carries the tag without its leading 'v' (the tag itself when it has none) as version, and the page URL unchanged |
| UpdateChecker.CheckUpdate | src/update/update_checker.cpp:45-60 | the notification is shown iff the fetch succeeded and its version is strictly newer, and it shows that release |
| Text.FirstIndex | src/i18n/locale_manager.cpp:63 | `indexOf` returns the first position holding the character |
| Text.Find | src/oauth/http_server.cpp:50 | `find` returns the first occurrence at or after the start position, or npos when there is none |
| Rules.Collect | src/ui/settings_window.cpp:194 | every key of the built map, with its value, comes from some inserted entry |
| Rules.CollectKeys | src/ui/settings_window.cpp:194 | a key is in the map built by successive insertions iff some entry inserted it |
| Rules.CollectLastWins | src/i18n/locale_manager.cpp:73 | the value of the last insertion for a key is the one the map keeps |
| Locale.Trim | src/i18n/locale_manager.cpp:56 | a trimmed line neither starts nor ends with whitespace |
| Locale.TrimStartPadded | src/i18n/locale_manager.cpp:56 | whitespace in front of text that starts with a non-space is removed, and nothing else |
| Locale.TrimEndPadded | src/i18n/locale_manager.cpp:56 | whitespace after text that ends with a non-space is removed, and nothing else |
| Locale.TrimPadded | src/i18n/locale_manager.cpp:56 | trimming any whitespace padding around a text with non-space ends gives exactly that text back; with `TrimEmptyIffBlank` this fixes the result on every line |
| Locale.TrimEmptyIffBlank | src/i18n/locale_manager.cpp:56-60 | a line trims to nothing iff it is all whitespace, so exactly blank lines are skipped as empty |
| Locale.TrimIdempotent | src/i18n/locale_manager.cpp:65-66 | trimming an already trimmed key or value changes nothing |
| Locale.Unquote | src/i18n/locale_manager.cpp:69-71 | a value that starts and ends with '"' loses exactly one surrounding pair (a lone '"' becomes empty); other values are kept |
| Locale.UnquoteQuoted | src/i18n/locale_manager.cpp:69-71 | quoting any value and unquoting it gives the value back |
| Locale.ParseLine | src/i18n/locale_manager.cpp:56-74 | a line yields an entry iff after trimming it is non-empty, not a comment, holds '=' and does not start with '='; the key is then non-empty, '='-free and trimmed |
| Locale.ParseEntryLine | src/i18n/locale_manager.cpp:63-73 | a `key="value"` line parses back to exactly that key and value, even when the value holds '=' or quotes |
| Locale.Entries | src/i18n/locale_manager.cpp:55-75 | each line of the file contributes its own entry, in file order |
| Locale.SkippedLineAddsNothing | src/i18n/locale_manager.cpp:59-64 | a blank, comment, '='-less or '='-first line leaves the table unchanged |
| Locale.Table | src/i18n/locale_manager.cpp:55-75 | every key of the table, with its text, is what some line of the file parses to |
| Locale.TableKeys | src/i18n/locale_manager.cpp:55-75 | a key is in the table iff some line defines it |
| Locale.TableStep | src/i18n/locale_manager.cpp:55-74 | reading one more line inserts that line's entry, if any, over the table so far |
| Locale.TableLastWins | src/i18n/locale_manager.cpp:73 | the last line defining a key decides its value |
| Locale.LocaleManager.constructor | src/i18n/locale_manager.cpp:17-26 | the manager starts with the table of the locale file that opened, or an empty one |
| Locale.LocaleManager.LoadLocale | src/i18n/locale_manager.cpp:28-79 | the table is cleared first and then is the table of the file's lines; a file that cannot be opened leaves it empty, so a reload replaces and never merges |
| Locale.LocaleManager.Translate | src/i18n/locale_manager.cpp:81-88 | a known key gives its stored text, otherwise the non-empty fallback, otherwise the key; the result is empty only for a stored empty text or an empty key without fallback |
| Locale.TranslateAfterLoad | src/i18n/locale_manager.cpp:83-87 | after a load, a key defined by some line translates to the value of its last such line, and an undefined key falls back |
| Scenes.Frontend.SetCurrentScene | src/obs/scene_switcher.cpp:49 | one set-current call makes that scene current and is recorded once; the scene list is untouched |
| Scenes.Names | src/obs/scene_switcher.cpp:26-30 | one name per scene, in enumeration order |
| Scenes.FirstNamed | src/obs/scene_switcher.cpp:44-52 | the position found holds the exact (case-sensitive) name and no earlier scene has it; none is found only when no scene has it |
| Scenes.GetSceneList | src/obs/scene_switcher.cpp:19-35 | the list holds each scene's name once, in the frontend's enumeration order |
| Scenes.SwitchScene | src/obs/scene_switcher.cpp:37-56 | the first exactly matching scene becomes current with exactly one set-current call; with no match neither the current scene nor the call trace changes; the scenes never change |
| Scenes.ListedNamesSwitch | src/obs/scene_switcher.cpp:19-56 | a name switches successfully iff `getSceneList` reports it |
| Widgets.ComboBox.CurrentText | src/ui/rule_row.cpp:110 | no selection reads as empty text, otherwise the selected item's text |
| Widgets.ComboBox.CurrentData | src/ui/rule_row.cpp:165-173 | a datum is read only from the selected item, and a selected item's datum is always read |
| Widgets.Clear | src/ui/rule_row.cpp:113-114 | a cleared box has no items, no selection, empty text and no datum |
| Widgets.AddItems | src/ui/rule_row.cpp:117-121 | items are appended after the existing ones; a box that was empty selects its new first item, otherwise the selection is kept |
| Widgets.FindText | src/ui/rule_row.cpp:129 | the first item showing exactly the text, or -1 iff no item shows it |
| Widgets.FindData | src/ui/rule_row.cpp:226-231 | the first item whose datum is the id, or -1 iff no item carries it |
| Widgets.SetCurrentIndex | src/ui/rule_row.cpp:126 | an index on an existing item selects it, so the box then shows that item's text and datum; any other index leaves no selection, with empty text and no datum; the items are untouched |
| Widgets.SetCurrentText | src/ui/rule_row.cpp:224 | a text some item shows becomes the current text; a text no item shows leaves the box as it was |
| Widgets.Clamp | src/ui/rule_row.cpp:76-77 | the seconds are always within [0, 86400]; values inside are kept, values outside go to the nearer bound |
| RuleRows.RewardItems | src/ui/rule_row.cpp:149-153 | one reward item per reward, in order, showing the title and carrying the id |
| RuleRows.SceneOf | src/ui/rule_row.cpp:165-173 | a selected item whose datum is "Any" reads as "Any"; otherwise the selected text; no selection reads as empty |
| RuleRows.RuleRow.constructor | src/ui/rule_row.cpp:32-77 | a new row is enabled, has empty boxes and shows 10 seconds |
| RuleRows.RuleRow.CurrentScene | src/ui/rule_row.cpp:165-173 | the source box read as a scene name: the sentinel (datum "Any") reads as "Any", any other item as its text, no selection as the empty name |
| RuleRows.RuleRow.RewardId | src/ui/rule_row.cpp:195-201 | the selected reward's id, empty when nothing is selected (`getSelectedRewardId` at 156-163 reads the same datum) |
| RuleRows.RuleRow.TargetScene | src/ui/rule_row.cpp:180-183 | the selected target's text, empty when nothing is selected |
| RuleRows.RuleRow.Rule | src/ui/rule_row.cpp:203-212 | the rule read back from the row: its source (with the sentinel as "Any"), reward id, target, enabled flag, the spin box's seconds (always within range) and no title |
| RuleRows.WithSceneList | src/ui/rule_row.cpp:106-142 | the state `setSceneList` leaves keeps both scene boxes valid: the index is -1 or on an item |
| RuleRows.SceneListRebuilds | src/ui/rule_row.cpp:106-142 | after `setSceneList` the source box is the sentinel then the scenes and the target box the scenes; a source or target named before and still listed is named again; the check box, reward box, seconds and rewards are unchanged |
| RuleRows.WithRewardList | src/ui/rule_row.cpp:144-154 | after `setRewardList` the rewards are stored and the reward box holds one item per reward, on the first (or on nothing for no rewards); every other part of the row is unchanged |
| RuleRows.RuleRow.SetSceneList | src/ui/rule_row.cpp:106-142 | the row stays valid and its whole new state is `WithSceneList` of its old state (whose meaning `SceneListRebuilds` states) |
| RuleRows.RuleRow.SetRewardList | src/ui/rule_row.cpp:144-154 | the whole new state is `WithRewardList` of the old one: the rewards are stored, the reward box holds one item per reward in order with the first selected, and the other boxes, the check box and the seconds are kept |
| RuleRows.RuleRow.SetRule | src/ui/rule_row.cpp:214-238 | an empty or "Any" source selects index 0 and reads back as "Any"; the first reward item with the rule's id is selected and an unknown id keeps the selection; target and seconds are shown, seconds clamped |
| RuleRows.SelectByData | src/ui/rule_row.cpp:226-231 | the first item whose datum is the id becomes selected and reads back as that id; with none the selection is kept; the items never change |
| RuleRows.RebuiltSource | src/ui/rule_row.cpp:113-133 | the rebuilt source box is valid and holds the sentinel then the scenes; "Any", nothing, or a scene the box does not show leaves it on the sentinel |
| RuleRows.RebuiltTarget | src/ui/rule_row.cpp:114-141 | the rebuilt target box is valid and holds the scenes; nothing, or a scene it does not show, leaves it on its first item, or on nothing when there are no scenes |
| RuleRows.RebuildSourceBox | src/ui/rule_row.cpp:113-133 | the clear, add, find and select steps end in exactly the box `RebuiltSource` describes |
| RuleRows.RebuildTargetBox | src/ui/rule_row.cpp:114-141 | the clear, add, find and select steps end in exactly the box `RebuiltTarget` describes |
| RuleRows.SourceRestored | src/ui/rule_row.cpp:124-133 | a named source still in the new list (and not spelled like the sentinel label) reads back unchanged after the rebuild |
| RuleRows.TargetRestored | src/ui/rule_row.cpp:136-141 | a target still in the new list is selected again after the rebuild |
| Settings.RemoveOne | src/ui/settings_window.cpp:146 | removing an absent row changes nothing; removing a present one shortens the list by one |
| Settings.RemoveOneCount | src/ui/settings_window.cpp:146 | exactly one copy of a present row is removed and every other row stays |
| Settings.RemoveOneKeepsOrder | src/ui/settings_window.cpp:146 | rows before the first copy keep their positions, rows after it move up by one |
| Settings.RowEntry | src/ui/settings_window.cpp:184-194 | a row contributes an entry iff it is non-null and has a non-empty reward id and target, and the entry is its rule under its reward id |
| Settings.RowEntries | src/ui/settings_window.cpp:184-198 | one entry per row, in `ruleRows_` order |
| Settings.SettingsWindow.constructor | src/ui/settings_window.cpp:73-86 | the window opens with no rows and the scene and reward lists it fetched |
| Settings.SettingsWindow.SetSceneList | src/ui/settings_window.cpp:89-98 | the list is stored; every non-null row's new state is `WithSceneList` of its old state; the row list, the reward list and row distinctness are kept |
| Settings.SettingsWindow.SetRewardList | src/ui/settings_window.cpp:100-108 | the list is stored; every non-null row's new state is `WithRewardList` of its old state; the row list, the scene list and row distinctness are kept |
| Settings.SettingsWindow.AddRuleRow | src/ui/settings_window.cpp:115-139 | exactly one new, distinct row is appended after the existing ones, filled with the cached lists only when they are non-empty; its source and target sit on their first item (or on nothing for no scenes), its reward box on the first reward (or nothing), and it stores the reward list |
| Settings.SettingsWindow.RemoveRuleRow | src/ui/settings_window.cpp:141-149 | a null row changes nothing; otherwise the first occurrence of the row is removed and the remaining rows stay distinct |
| Settings.SettingsWindow.SaveRules | src/ui/settings_window.cpp:177-208 | the saved map is the last-wins fold of the rows' entries |
| Settings.SavedStep | src/ui/settings_window.cpp:184-194 | visiting one more row inserts that row's entry, if any, over the map built so far |
| Settings.SavedKeys | src/ui/settings_window.cpp:182-198 | the saved map's keys are exactly the reward ids of non-null rows with a non-empty id and target |
| Settings.SavedLastWins | src/ui/settings_window.cpp:184-194 | each eligible row's rule is stored under its reward id unless a later eligible row has the same id |
| Plugin.ObsSceneSwitcher.constructor | src/obs_scene_switcher.cpp:38-41 | the controller starts unauthenticated, disconnected, without tokens, with expiry 0 and an empty routing table |
| Plugin.ObsSceneSwitcher.Start | src/obs_scene_switcher.cpp:48-73 | the client credentials are loaded; only an authenticated controller shows the dock's main page and connects EventSub |
| Plugin.ObsSceneSwitcher.Stop | src/obs_scene_switcher.cpp:75-79 | EventSub is always left disconnected |
| Plugin.ObsSceneSwitcher.ConnectEventSub | src/obs_scene_switcher.cpp:117-123 | only the connected flag is set |
| Plugin.ObsSceneSwitcher.DisconnectEventSub | src/obs_scene_switcher.cpp:125-131 | only the connected flag is cleared |
| Plugin.ObsSceneSwitcher.HandleOAuthCallback | src/obs_scene_switcher.cpp:81-95 | the helper's access token, refresh token and expiry are copied and the controller becomes authenticated |
| Plugin.ObsSceneSwitcher.StartOAuthLogin | src/obs_scene_switcher.cpp:97-103 | the success signal is emitted but the authenticated flag is not changed |
| Plugin.ObsSceneSwitcher.Logout | src/obs_scene_switcher.cpp:105-115 | both tokens are cleared, the expiry is 0 and the controller is unauthenticated |
| Plugin.ObsSceneSwitcher.OnRedemptionReceived | src/obs_scene_switcher.cpp:133-142 | a switch to the mapped scene is requested iff the reward is in the map; nothing else changes |
| Plugin.Requests | src/obs_scene_switcher.cpp:138-141 | at most one switch request per redemption, present iff the reward is mapped, naming the mapped scene |
| Plugin.Registry.Instance | src/obs_scene_switcher.cpp:22-28 | the first call builds a fresh controller, and every later call returns that same one |
| Plugin.Registry.Destroy | src/obs_scene_switcher.cpp:30-36 | the slot is emptied, so the next `instance()` builds a fresh controller |
| OAuthCallback.ExtractCode | src/oauth/http_server.cpp:50-54 | a code exists iff the marker occurs; it starts right after the first marker, holds no space, and ends at the next space or at the end of the data |
| OAuthCallback.CodeFrom | src/oauth/http_server.cpp:52-54 | the text from a position up to the next space (or the end) holds no space, is what the data holds there, and stops at a space or at the end |
| OAuthCallback.CodeFromDelimited | src/oauth/http_server.cpp:52-54 | a space-free stretch that ends at a space or at the end of the data is exactly the code read from its start |
| OAuthCallback.ExtractWrittenCode | src/oauth/http_server.cpp:49-54 | a request `GET /callback?code=<c>` followed by a space or nothing yields exactly `<c>` |
| OAuthCallback.HttpServer.Start | src/oauth/http_server.cpp:17-23 | while running, start changes nothing, not even the callback; otherwise it sets the flag and stores the callback |
| OAuthCallback.HttpServer.Stop | src/oauth/http_server.cpp:74-77 | the running flag is cleared |
| OAuthCallback.HttpServer.Serve | src/oauth/http_server.cpp:44-64 | only the first 4096 characters are read; the callback receives the code only when the marker is there and a callback is set; the success page is sent iff the marker is there |

## Left out

- The EventSub WebSocket client is left out: its `.cpp` holds only stubs. The model keeps only the controller's connected flag.
- `switchWithRevert`, the revert and countdown timers, and the `Suppressed` state are left out. They are declared but have no body in this snapshot.
- `ObsSceneSwitcher::switchScene` only logs in this snapshot. The model records its call as a `SwitchRequested` event.
- `src/oauth/twitch_oauth.cpp` (the HTTPS token exchange and JSON parsing) is not part of this model. Its results are the fields of `Plugin.OAuthHelper`, and how `oauth_` is created is not shown.
- The update check's HTTP request, JSON parsing, message box, browser launch and detached thread are left out. The fetched release, or its absence on failure, is a parameter of `UpdateChecker.CheckUpdate`.
- Locale file opening and the en-US fallback path are I/O. The loader is given the lines of whichever file opened, or `None`.
- `translate(key, args)` is left out, because it relies on `QString::arg` placeholder rules.
- The socket calls, the server thread and the atomic `running_` flag's concurrency are left out. A request is the data one `recv` delivered.
  - `OAuthCallback.HttpServer.Serve` does not model that the accept loop runs only while `running_` is set.
  - The callback is an opaque handle, and the response is a flag.
- OAuthCallback.HttpServer.Start: a start after `stop` is modelled as a plain restart. In the code, `stop` (src/oauth/http_server.cpp:74-77) never joins `serverThread_`, so the restart's move-assignment onto the still-joinable thread at src/oauth/http_server.cpp:25 calls `std::terminate`. Threads are not modelled.
- `ConfigManager` is left out. `saveRules` calls `clearRewardSceneMap` (src/ui/settings_window.cpp:180), which src/obs/config_manager.hpp never declares. `getClientId` and `getClientSecret` are declared (src/obs/config_manager.hpp:19-20) but never defined, and `save` and `load` only log (src/obs/config_manager.cpp:18-28). The credentials are parameters of `Plugin.ObsSceneSwitcher.Start`.
- `setRewardRuleMap` is called but not defined. `Settings.SettingsWindow.SaveRules` returns the map it would hand over.
- `setRewardSceneMap` is declared but not defined, so nothing in the code fills the routing table. The model leaves the table settable only through the field.
- Layouts, style sheets, tooltips, the drag handle, `updateVisualState` and `loadRules` have no logic to state and are left out. `loadRules` is an empty FIXME.
- Logging (`blog`) is left out.
- `Locale.IsSpace` covers the C whitespace characters, NEL and NO-BREAK SPACE. Other Unicode spaces that `QString::trimmed` also removes are not modelled.
- `Scenes.SwitchScene` compares names as whole strings. A scene name that holds a NUL character, where the C string comparison would stop, is not modelled.
- The `rewardList_` vector kept by the window and the rows is stored but only read to rebuild the reward boxes. Nothing else about it is stated.
