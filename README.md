# sf-colorg: org-dependent status bar and activity bar colors, in Dafny

The `sf-colorg` VS Code extension colors the status bar and the activity bar after the
Salesforce org a project is connected to. It reads the project's org config file from
one of two places:

- the new location `.sf/config.json`, whose `target-org` field names the org;
- the old location `.sfdx/sfdx-config.json`, whose `defaultusername` field names it.

It tests that identifier against the ordered `sf-colorg.rules` list. Each rule is a
regular expression with a color, and the first rule that matches decides the color. The
color is then written into the host's `workbench.colorCustomizations` setting.

This project models that decision logic and proves what it does. It has four modules:

- `JsValues` (`js_values.dfy`) models the JavaScript behaviour the code relies on:
  truthiness, `== null`, the coercion of a missing property to the text `"undefined"`,
  and `String.prototype.includes`. `IncludesIff` proves the scan is a substring test.
- `RuleMatching` (`rule_matching.dfy`) models the identifier-field choice and the
  first-match rule loop of `handleFileContent`.
  - `FirstMatch` is the reference definition of the loop.
  - `MatchRules` is the loop itself: a `while` with `break`, proved equal to `FirstMatch`.
  - The lemmas characterise `FirstMatch` completely: first hit wins, a malformed pattern
    throws, no hit gives `null`, every outcome has one of these three explanations, and
    rules after a hit are never consulted.
- `ColorSettings` (`color_settings.dfy`) models the scope choice and the two map updates.
  - `ResolveScope` is the scope choice of `setColor`.
  - `Recolored` is the update `setColor` makes; `Cleared` is the update `initialCleanup` makes.
  - `SettingsStore` is a class holding the customization map the extension mutates in
    place, plus the sequence of `update(...)` calls it has issued. Its `SetColor` and
    `InitialCleanup` methods are proved against `Recolored` and `Cleared`.
- `Extension` (`extension.dfy`) models the handlers: `handleFileContent` (also what the file
  watchers call), `init` with its new-before-old precedence, the active-editor filter, the
  configuration-change listener and `deactivate`. The lemmas show three things about
  `init`. It touches only the owned keys. When no config file exists, it writes a Global
  value with both owned keys `undefined`. Running it twice gives the same result as once.

Host interaction becomes inputs:

- `findFiles` results are sequences of paths;
- the freshly loaded config file is `Env.read(path)`, a `map<string, string>`;
- the regular expression engine is `RegexEngine`, a pair of uninterpreted functions
  (`compiles`, `test`);
- the presence of an active editor is a boolean;
- each `update` call is recorded as an `Update(value, target)` in `SettingsStore.updates`.

The model keeps one customization map and applies every update to it, whatever its
target. The host keeps a value per target and merges them, which the model does not
(see "Left out").

### Behaviour of the code worth knowing

- Only `statusBar.background` and `activityBar.background` are ever written. A rule's
  color is a background color; no other field of a rule is read.
- A rule whose pattern is malformed makes `new RegExp` throw (line 37). The loop stops
  there and `setColor` is not reached, so no color is written (`Outcome.Thrown`,
  `FirstMalformedThrows`). In `init` the exception is caught and logged.
- A config file that lacks its identifier field is still tested. `file[attribute]` is
  `undefined`, which the test reads as the text `"undefined"` (line 37,
  `MissingFieldTestedAsUndefined`).
- A missing `sf-colorg.rules` setting is the empty list (line 30), which gives the color
  `null` (`MissingRulesGiveNull`).
- When the color is `null` or `undefined`, lines 109-110 and 115-116 write it through
  unchanged, whatever the toggles. So a surface toggled off gets `null` when the color
  is `null`. A rule without a `color` hands on `undefined`, which is written through the
  same way. Only a color that is neither `null` nor `undefined` is replaced by
  `undefined` on a surface toggled off (lines 112 and 118).
- A falsy `settingsScope` or `'workspace'` gives the Workspace target, and any other
  value gives Global (lines 101-102). `initialCleanup` always writes at Global (line 144).
- `setColor` writes nothing when no editor is active (line 108), so running the
  handler does not always end in a write.
- A configuration change runs `init` again only when it affects the `sf-colorg`
  section (lines 68-72). No other host event re-runs the matcher, apart from the
  editor-change listener and the file watchers.

## Model

| member | source | states |
|---|---|---|
| `JsValues.IncludesIff` | extension.js:33 | the `includes` scan holds exactly when the fragment occurs at some index of the path |
| `RuleMatching.IdentifierField` | extension.js:33-35 | the field is `defaultusername` exactly when `/.sfdx/` occurs in the path, and `target-org` otherwise |
| `RuleMatching.FirstHitWins` | extension.js:32-41 | if rule i is the first that matches and all earlier rules compiled and missed, the outcome is rule i's color |
| `RuleMatching.FirstMalformedThrows` | extension.js:37 | a malformed pattern reached before any match makes the handler throw |
| `RuleMatching.NoHitGivesNull` | extension.js:30-42 | when every rule (possibly none) is evaluated without a match, the color handed on is `null` |
| `RuleMatching.FirstMatchExplained` | extension.js:30-42 | every outcome is one of the three cases: a thrown outcome has a reached malformed rule; a color comes from the first matching rule or is `null` with no rule matching |
| `RuleMatching.LaterRulesIgnored` | extension.js:37-40 | after the first hit, replacing every later rule does not change the outcome |
| `RuleMatching.MatchRules` | extension.js:30-41 | the loop with its `break` returns exactly the first-match outcome |
| `ColorSettings.ResolveScope` | extension.js:101-102 | Workspace exactly when the setting is falsy or equals `'workspace'`; Global for every other value |
| `ColorSettings.OwnedValueCases` | extension.js:109-119 | an enabled surface gets the color; a `null`/`undefined` color passes through; a disabled surface with a real color gets `undefined`; a color string appears only on an enabled surface |
| `ColorSettings.RecoloredKeepsForeignKeys` | extension.js:103-119 | `setColor` adds or overwrites only the two owned keys, with the per-key values above, and every other key keeps its value |
| `ColorSettings.ClearedKeepsForeignKeys` | extension.js:134-137 | the cleanup sets both owned keys to `undefined` and keeps every other key |
| `ColorSettings.ClearedIsRecoloredUndefined` | extension.js:132-137 | the cleanup equals `setColor(undefined)` under any toggles |
| `ColorSettings.RecoloredNull` | extension.js:109-119 | `setColor(null)` writes `null` to both owned keys under any toggles |
| `ColorSettings.AfterSetColorIdempotent` | extension.js:103-127 | applying `setColor` twice gives the map of one application, and the second write repeats the first |
| `ColorSettings.RecoloredAfterCleared` | extension.js:131-137 | a `setColor` after the cleanup gives the same map as without the cleanup |
| `ColorSettings.ClearedAfterRecolored` | extension.js:132-137 | a cleanup after `setColor` gives the same map as the cleanup alone |
| `ColorSettings.MixedTogglesExample` | extension.js:109-119 | with the status bar off and the activity bar on, a color reaches only `activityBar.background` |
| `ColorSettings.SettingsStore.SetColor` | extension.js:99-129 | with an active editor, the map becomes the recolored map and one update at the resolved scope is recorded; without one, nothing changes |
| `ColorSettings.SettingsStore.InitialCleanup` | extension.js:132-146 | the map becomes the cleared map and one update at the Global target is recorded |
| `Extension.ConfigSource` | extension.js:49-59 | a file is handled exactly when some file was found; it is the first of the new-location results followed by the old-location results, so a new-location file whenever one exists |
| `Extension.IsTracked` | extension.js:19-20 | the editor's path is tracked exactly when it is among the new-location or the old-location results |
| `Extension.NewLocationWins` | extension.js:49-59 | with a new-location file present, the choice is that file whatever the old-location results are |
| `Extension.InitWithoutConfigClears` | extension.js:45-59 | with no config file found, `init` issues only the Global cleanup, whose value has both owned keys `undefined` and every other key unchanged |
| `Extension.InitKeepsForeignKeys` | extension.js:45-59 | `init` adds or overwrites only the two owned keys |
| `Extension.InitIdempotent` | extension.js:45-63 | a second `init` with unchanged inputs leaves the map as the first left it and issues the same writes |
| `Extension.MissingRulesGiveNull` | extension.js:30-42 | with the rules setting missing, `RulesOrEmpty` gives the empty list and the color handed to `setColor` is `null` |
| `Extension.MissingFieldTestedAsUndefined` | extension.js:37 | a file without its identifier field is matched, through `PropertyText`, exactly as if the field held the text `"undefined"` |
| `Extension.MissingFieldStillMatched` | extension.js:37 | in particular, a one-rule catch-all list colors a file without its identifier field |
| `Extension.HandleFileContent` | extension.js:26-43 | the outcome is the first-match outcome for the file's identifier field; a color goes through `setColor`; a throw leaves the store unchanged |
| `Extension.Init` | extension.js:45-63 | cleanup, then handling of the chosen config file; the final map and the writes are those of `AfterInit` and `InitWrites` |
| `Extension.OnDidChangeActiveTextEditor` | extension.js:14-24 | the file is handled exactly when an editor is present and its path is tracked; otherwise the store is unchanged |
| `Extension.OnDidChangeConfiguration` | extension.js:68-72 | `init` runs again exactly when the change affects `sf-colorg`; otherwise the store is unchanged |
| `Extension.Deactivate` | extension.js:154-159 | `setColor(null)`: with an active editor both owned keys become `null` |

## Left out

- VS Code API calls are inputs or records, not modelled behaviour. This covers the
  `findFiles` glob search, the `update` persistence, and the merging of user and
  workspace settings behind `config.get`. The customization map is one map; each write
  is recorded with its target. In the host, `config.get` returns the merged map
  (lines 103, 134), and `update` stores the whole of it at one target (lines 125-126,
  143-144). So `initialCleanup` copies Workspace-only foreign entries into the Global
  value, and `setColor` copies Global entries into the Workspace value. The effective
  value of each foreign key stays the same, as the single map shows. The copies left at
  the other target are not modelled.
- `Extension.InitWithoutConfigClears`: the Global cleanup does not remove a color written
  earlier at the Workspace target, which is where `setColor` writes by default
  (lines 101-102, 126). VS Code merges the object setting across targets and the
  Workspace value wins, so such a color stays on screen. The model has a single map and
  does not show this.
- `requireUncached` and JSON loading (lines 148-151) are host plumbing. The parsed file is
  `Env.read(path)`, with string values only. A load or parse failure, which would throw
  before the loop, is not modelled.
- The JavaScript `RegExp` engine is uninterpreted: `RegexEngine.compiles` and
  `RegexEngine.test`.
- Async sequencing and `await`, the un-awaited `setColor` promises, `console.error`, and
  rejected `update` calls are not modelled. Interleavings of several triggers cannot be
  stated in this model.
- Watcher creation, event subscription and disposal (lines 75-96 and 155-157) are
  subscription plumbing. The watchers' change and create callbacks call
  `handleFileContent`, which is `Extension.HandleFileContent`. The `activate` wiring is
  left out, except for its call to `init` (line 65).
- Setting values that are numbers, arrays or objects are not represented. Neither are
  non-object rules nor a non-string `regex`. `Value` covers `undefined`, `null`, booleans
  and strings.
- An undefined `workbench.colorCustomizations` (the code would throw on the
  assignment) is not modelled; the model always has a map.
- Paths are taken as given. The model does not normalise separators, so the literal
  `/.sfdx/` test in `IdentifierField` is applied to the path exactly as the host
  reports it.
