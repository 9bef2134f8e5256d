/** The per-interface "active" flag and the two small deciders that produce
    and consume it: the classification of the `ip addr | grep " <name>:"`
    output, and the ornament of an interface's menu item. */
module Probe {
  import opened Text

  datatype Option<+T> = None | Some(value: T)

  /** An entry of the interface table holds `true`, `false` or `undefined`;
      every reader only asks whether it is truthy. */
  datatype Flag = Active | Inactive | Unset

  predicate Truthy(f: Flag) {
    f == Active
  }

  /** Property lookup on the table: a missing key reads as `undefined`. */
  function Lookup(flags: map<string, Flag>, name: string): (f: Flag)
    ensures f == Active <==> name in flags && flags[name] == Active
    ensures name !in flags ==> f == Unset
  {
    if name in flags then flags[name] else Unset
  }

  /** `checkIfInterfaceIsActive` on the probe's output. The output is what
      the shell helper returned: text, or nothing (`None`) when spawning the
      probe threw. Empty or missing output returns `undefined`; output
      without "UP" in it is `false`; any other output is `true`. */
  function Classify(output: Option<string>): (f: Flag)
    ensures f == Unset <==> output == None || output == Some("")
    ensures f == Inactive <==>
      output.Some? && output.value != "" && forall i :: !OccursAt(output.value, "UP", i)
    ensures f == Active <==> output.Some? && exists i :: OccursAt(output.value, "UP", i)
  {
    if output.None? || output.value == "" then Unset
    else if IndexOf(output.value, "UP") == -1 then Inactive
    else Active
  }

  /** The search for "UP" covers the whole matching line, interface name
      included, so an interface that exists but is down reads as `true` when
      its own name contains "UP". */
  lemma DownUplinkReadsActive()
    ensures Classify(Some("5: UPLINK: <NOARP> state DOWN")) == Active
  {
    var line := "5: UPLINK: <NOARP> state DOWN";
    assert line[3] == 'U' && line[4] == 'P';
    assert line[3..5] == "UP";
    assert OccursAt(line, "UP", 3);
  }

  datatype Ornament = Dot | NoOrnament

  /** The ornament of an interface's menu item: the dot exactly when its
      flag is truthy. */
  function OrnamentFor(flag: Flag): Ornament {
    if Truthy(flag) then Dot else NoOrnament
  }
}
