# WireGuard panel extension: interface table and switch command

A model of the state-keeping core of a GNOME Shell panel extension that
switches between WireGuard tunnels. The extension keeps one module-level
object, `interfaceList`, that maps each known interface name to an
"active" flag. It fills that object every time the dropdown menu is
rebuilt, builds from it the argument string of the privileged switch
script, and clears every flag when the user disables the VPN.

The model has four modules:

- `Text`: the JavaScript string operations the code relies on
  (`indexOf`, `split("\n")`), and the reading of the switch command's
  argument string as space-separated words.
- `Probe`: the three-valued flag (`true`, `false`, `undefined`, written
  `Active`, `Inactive`, `Unset`), property lookup on the table, the
  classification of the `ip addr | grep` output, and the menu ornament.
- `Switch`: the argument list of `switchWireguardInterfaceTo` as a pure
  function of the target and the table, with its properties.
- `Table`: the class `InterfaceTable` holding the object's keys in
  insertion order and its flags, and the methods with loops that read or
  write it (`switchWireguardInterfaceTo`, the population loop of
  `_buildMenu`, `disableWireguard`).

Shell calls are parameters. The probe is a function `probe` from an
interface name to what the shell helper returned for it: `Some(text)`, or
`None` when spawning the command threw. The interface listing is what the
listing helper returned, again `Some(text)` or `None`, and whether the
address service's reply parses as JSON is a boolean. The switch command
is returned as the argument string the code builds, not executed.

Facts about the code that the model keeps:

- `switchWireguardInterfaceTo` writes nothing to the table; only a
  rebuild of the menu changes it. `SwitchWireguardInterfaceTo` has no
  `modifies` clause.
- With no target, every key is passed to the switch script, whatever its
  flag.
- A rebuild only adds or overwrites entries; keys missing from the new
  listing keep their old values.
- A flag can be `undefined`: the probe returns nothing when its output is
  missing or empty, and readers treat that as `false`.
- A rebuild stops before its loop, with the table untouched and no
  interface rows, when the listing is `undefined` (`split` throws) or when
  the address service's reply is not JSON (`JSON.parse` in `getIPAddr`
  throws).

## Model

| member | source | states |
|---|---|---|
| `Text.IndexOf` | src/extension.js:192 | the result is -1 exactly when the pattern occurs nowhere; otherwise the pattern occurs there and at no earlier position |
| `Text.Split` | src/extension.js:211 | splitting always yields at least one piece, and no piece contains the separator |
| `Text.JoinSplit` | src/extension.js:211 | joining the pieces of a split with the separator gives back the listing |
| `Text.SplitJoin` | src/extension.js:211 | splitting the join of separator-free pieces gives back the pieces |
| `Text.WordsOfSpaced` | src/extension.js:116-139 | the argument string, cut at spaces, gives back exactly the tokens it was built from, when each token is a non-empty word without spaces |
| `Probe.Lookup` | src/extension.js:153 | reading a name gives `true` exactly when the table maps it to `true`; a missing name reads as `undefined` |
| `Probe.Classify` | src/extension.js:185-196 | missing or empty output gives `undefined`; non-empty output with no "UP" in it gives `false`; output containing "UP" gives `true` |
| `Probe.DownUplinkReadsActive` | src/extension.js:186-194 | the probe line of an interface named UPLINK that is down contains "UP" in the name, so the interface reads as `true` |
| `Switch.DownsMembers` | src/extension.js:125-136 | a name is passed on to be brought down exactly when it is a key and qualifies: with a target, truthy and not the target; with no target, always |
| `Switch.DownsInOrder` | src/extension.js:125 | the interfaces to bring down are a subsequence of the table's keys, so they keep key order |
| `Switch.DownsDistinct` | src/extension.js:125-128 | distinct keys give interfaces to bring down without repeats |
| `Switch.DownsAllKeys` | src/extension.js:129-135 | with no target, the interfaces to bring down are all the keys, in key order, whatever their flags |
| `Switch.SwitchToTarget` | src/extension.js:118-136 | with a target: it is the first token; the rest are exactly the keys mapped to `true` other than the target, in key order, each once; the target and every key not mapped to `true` never appear among them |
| `Switch.SwitchToNothing` | src/extension.js:118-135 | with no target the argument list is "$" followed by every key in key order |
| `Table.ExtendKeys` | src/extension.js:219-221 | a rebuild keeps the old keys in front and in order, adds exactly the non-empty lines that were not keys, never adds an empty name, and keeps the keys distinct |
| `Table.ExtendOrder` | src/extension.js:219-221 | the keys a rebuild adds are ordered by where the listing first mentions them |
| `Table.PopulateFlags` | src/extension.js:219-224 | a rebuild removes no key; every listed name maps to its probe's classification; every unlisted key keeps its flag; empty lines neither add nor change an entry |
| `Table.EntriesRows` | src/extension.js:219-223 | the interface rows of a rebuild are exactly the non-empty lines in listing order, each with the ornament of its own probe's classification |
| `Table.DisabledStayInactive` | src/extension.js:274-281 | after disabling and rebuilding, every old key is still present and every old key the new listing does not mention is `false` |
| `Table.InterfaceTable.constructor` | src/extension.js:109 | the table starts with no keys |
| `Table.InterfaceTable.OrnamentOf` | src/extension.js:153 | the menu item shows a dot exactly when the table maps the name to `true`; `false`, `undefined` and a missing name give no ornament |
| `Table.InterfaceTable.SwitchWireguardInterfaceTo` | src/extension.js:115-141 | the argument string is the target (or "$") and then the interfaces to bring down, each followed by a space, as specified by `SwitchTokens`; the table is not modified |
| `Table.InterfaceTable.Store` | src/extension.js:220-221 | assigning a flag to a non-empty name (the loop's guard) sets that entry and appends the name to the key order only when it is new; the empty name is never a key |
| `Table.InterfaceTable.BuildMenu` | src/extension.js:197-224 | an `undefined` listing or an address reply `JSON.parse` rejects stops the rebuild before its loop, leaving keys and flags unchanged and adding no rows; otherwise the keys become `Extend` of the old keys by the listing's lines, the flags become `Populate` of the old flags, and the rows are `Entries` of the lines |
| `Table.InterfaceTable.ResetFlags` | src/extension.js:276-278 | the keys are unchanged and every key maps to `false` |
| `Table.InterfaceTable.DisableWireguard` | src/extension.js:274-282 | the switch is issued with no target while the old table is still in place, so its argument string is "$" followed by every old key; then every flag is cleared and the menu is rebuilt from the new listing; when the rebuild stops before its loop, the old keys remain with every flag `false` and no rows |

## Left out

- Running commands: `execShell`, `execInterfaceScript`, `GLib.spawn_command_line_sync`, `Gio.Subprocess` and the `wait_async` callbacks (src/extension.js:45-95) are not modelled. Their outputs are parameters and the switch command is a returned string.
- The helper scripts (`update-interface-list.sh`, `switch-wg-interface.sh`, `check-dependencies.sh`, `import-interface.sh`), the `sed 's/.conf$//'` suffix stripping, and the `pkexec`, `notify-send` and `gedit` invocations: their contents are shell code outside this model.
- `getIPAddr`: the web request is not modelled. Its only effect on the table is that `JSON.parse` throws on a reply that is not JSON, which `BuildMenu` takes as the `ipReplyParses` parameter. The address text shown in the menu is not modelled.
- Menu construction, widgets, signal handlers, `GObject.registerClass` and the shell-version check. Only the ornament decision at src/extension.js:153 and the list of interface rows are modelled; `toggleState`, `createNewInterface`, `importInterface` and `refreshInterfaces` each clear the menu and run the same rebuild as `BuildMenu` after their own shell calls (`refreshInterfaces` first deletes the cached listing file at src/extension.js:266, `importInterface` first starts the import dialog at src/extension.js:260).
- The three control actions are handed to `addAction` as unbound methods (src/extension.js:228-230). If the shell calls them without the indicator as `this`, `this.menu.removeAll()` throws before the rebuild. The model assumes the rebuild runs.
- Logging and notifications: side output that changes no state.
- BuildMenu: the probe is a function of the name, so two probes of the same name during one rebuild give the same answer. The real command runs once per line and could answer differently.
- Table.InterfaceTable.Store: JavaScript lists integer-like property names ("0", "17") before all other names, in numeric order. The model keeps every name in insertion order. The name `__proto__` is not an ordinary property either. Interface names of either kind are not modelled.
- Text.WordsOfSpaced: the shell is modelled as cutting the argument string at spaces only; a tab or a newline in a name is not covered. Quotes, `$` expansions, globbing and other metacharacters in interface names are taken literally, so names containing them are not covered.
