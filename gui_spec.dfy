/** `PatchSpecification::from_xbpatchapp` of gui/src/patching.rs: the
    entries the user enabled in every loaded patch set, in order, with the
    input and output paths of the application. The entry type is a
    parameter; an included entry is a copy of the loaded one. The
    application state is passed in as plain values. */
module GuiSelection {
  import opened Common

  /** One loaded patch set: its entries and the user's enabled flags,
      which may be shorter than the entry list. */
  datatype LoadedSet<T> = LoadedSet(entries: seq<T>, enabledEntries: seq<bool>)

  /** The parts of `XBPatchApp` that the selection reads. */
  datatype App<T> = App(loadedSets: seq<LoadedSet<T>>, inputIsoPath: string, outputIsoPath: string)

  datatype PatchSpecification<T> = PatchSpecification(inFile: string, outFile: string, entries: seq<T>)

  /** `enabled_entries.get(i).cloned().unwrap_or(false)`. */
  predicate Enabled(flags: seq<bool>, i: nat)
  {
    i < |flags| && flags[i]
  }

  /** The enabled entries of one set, in entry order. */
  function FilterEnabled<T>(entries: seq<T>, flags: seq<bool>): seq<T>
  {
    if |entries| == 0 then []
    else FilterEnabled(entries[..|entries| - 1], flags) +
         (if Enabled(flags, |entries| - 1) then [entries[|entries| - 1]] else [])
  }

  /** The enabled entries of every set, set after set. */
  function SelectAll<T>(sets: seq<LoadedSet<T>>): seq<T>
  {
    if |sets| == 0 then []
    else SelectAll(sets[..|sets| - 1]) +
         FilterEnabled(sets[|sets| - 1].entries, sets[|sets| - 1].enabledEntries)
  }

  /** `from_xbpatchapp`: push every enabled entry of every loaded set, copy
      the two paths, and return `Ok`. */
  method FromApp<T>(app: App<T>) returns (r: Result<PatchSpecification<T>, string>)
    ensures r.Ok?
    ensures r.value.entries == SelectAll(app.loadedSets)
    ensures r.value.inFile == app.inputIsoPath && r.value.outFile == app.outputIsoPath
  {
    var spec := PatchSpecification("", "", []);
    var sets := app.loadedSets;
    for s := 0 to |sets|
      invariant spec == PatchSpecification("", "", SelectAll(sets[..s]))
    {
      var enabled := sets[s].enabledEntries;
      var entries := sets[s].entries;
      for i := 0 to |entries|
        invariant spec == PatchSpecification("", "", SelectAll(sets[..s]) + FilterEnabled(entries[..i], enabled))
      {
        assert entries[..i + 1][..i] == entries[..i];
        if i < |enabled| && enabled[i] {
          spec := spec.(entries := spec.entries + [entries[i]]);
        }
      }
      assert entries[..|entries|] == entries;
      assert sets[..s + 1][..s] == sets[..s];
    }
    assert sets[..|sets|] == sets;
    spec := spec.(inFile := app.inputIsoPath, outFile := app.outputIsoPath);
    r := Ok(spec);
  }

  /** An entry is selected exactly when some position holding it is
      enabled. */
  lemma {:induction false} FilterMembership<T>(entries: seq<T>, flags: seq<bool>, x: T)
    ensures x in FilterEnabled(entries, flags) <==>
      exists i :: 0 <= i < |entries| && Enabled(flags, i) && entries[i] == x
  {
    if |entries| > 0 {
      var init := entries[..|entries| - 1];
      FilterMembership(init, flags, x);
      assert forall i :: 0 <= i < |init| ==> init[i] == entries[i];
      if x in FilterEnabled(entries, flags) && x !in FilterEnabled(init, flags) {
        assert Enabled(flags, |entries| - 1) && entries[|entries| - 1] == x;
      }
      if i :| 0 <= i < |entries| && Enabled(flags, i) && entries[i] == x {
        if i < |init| {
          assert init[i] == x;
        }
      }
    }
  }

  /** Positions past the end of the flags are disabled: only the first
      `|flags|` entries can be selected. */
  lemma {:induction false} FlagsBeyondLengthDisabled<T>(entries: seq<T>, flags: seq<bool>)
    requires |flags| <= |entries|
    ensures FilterEnabled(entries, flags) == FilterEnabled(entries[..|flags|], flags)
  {
    if |entries| > |flags| {
      var init := entries[..|entries| - 1];
      FlagsBeyondLengthDisabled(init, flags);
      assert init[..|flags|] == entries[..|flags|];
    } else {
      assert entries[..|flags|] == entries;
    }
  }

  /** With every flag set, a set contributes all of its entries. */
  lemma {:induction false} AllEnabledSelectsAll<T>(entries: seq<T>, flags: seq<bool>)
    requires |entries| <= |flags|
    requires forall i :: 0 <= i < |flags| ==> flags[i]
    ensures FilterEnabled(entries, flags) == entries
  {
    if |entries| > 0 {
      var init := entries[..|entries| - 1];
      AllEnabledSelectsAll(init, flags);
      assert init + [entries[|entries| - 1]] == entries;
    }
  }

  /** The selection of several sets is the selections of each, in order. */
  lemma {:induction false} SelectAllAppend<T>(a: seq<LoadedSet<T>>, b: seq<LoadedSet<T>>)
    ensures SelectAll(a + b) == SelectAll(a) + SelectAll(b)
  {
    if |b| > 0 {
      var init := b[..|b| - 1];
      assert (a + b)[..|a + b| - 1] == a + init;
      assert (a + b)[|a + b| - 1] == b[|b| - 1];
      SelectAllAppend(a, init);
    } else {
      assert a + b == a;
    }
  }
}
