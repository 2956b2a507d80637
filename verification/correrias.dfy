/*
 * The routes ("correrías") of the map page: an in-memory list the page
 * appends to when a route is named, whose counters go up as points are
 * assigned to a route, and whose name and terminal code are edited and
 * then saved to the open project through update-tpl-by-description.
 */
module Correrias {
  import opened Wrappers
  import JsText

  /** One entry of the list: `{ name, count, terminal }`. */
  datatype Correria = Correria(name: string, count: nat, terminal: string)

  /** What saving an entry asks the server to do: set `Tpl` to `tpl` on the
      rows whose `Description` is `description`. */
  datatype TplRequest = TplRequest(description: string, tpl: string)

  /** The number of points assigned to the routes of the list. */
  function Assigned(es: seq<Correria>): (n: nat)
    ensures es == [] ==> n == 0
  {
    if es == [] then 0 else es[0].count + Assigned(es[1..])
  }

  /** Replacing one entry changes the total by the difference of the two
      counts. */
  lemma {:induction false} AssignedUpdate(es: seq<Correria>, i: nat, e: Correria)
    requires i < |es|
    ensures Assigned(es[i := e]) == Assigned(es) - es[i].count + e.count
  {
    if i == 0 {
      assert es[i := e][1..] == es[1..];
    } else {
      assert es[i := e][1..] == es[1..][i - 1 := e];
      AssignedUpdate(es[1..], i - 1, e);
    }
  }

  /** Appending an entry adds its count to the total. */
  lemma {:induction false} AssignedAppend(es: seq<Correria>, e: Correria)
    ensures Assigned(es + [e]) == Assigned(es) + e.count
  {
    if es == [] {
      assert [e][1..] == [];
    } else {
      assert (es + [e])[1..] == es[1..] + [e];
      AssignedAppend(es[1..], e);
    }
  }

  /** The entry at `idx` with one more point assigned. */
  function Bumped(es: seq<Correria>, idx: nat): (r: seq<Correria>)
    requires idx < |es|
    ensures |r| == |es|
    ensures r[idx].name == es[idx].name && r[idx].terminal == es[idx].terminal
    ensures forall j :: 0 <= j < |es| && j != idx ==> r[j] == es[j]
  {
    es[idx := es[idx].(count := es[idx].count + 1)]
  }

  /** An assignment adds exactly one point to the total and one to its own
      entry. */
  lemma BumpedCounts(es: seq<Correria>, idx: nat)
    requires idx < |es|
    ensures Bumped(es, idx)[idx].count == es[idx].count + 1
    ensures Assigned(Bumped(es, idx)) == Assigned(es) + 1
  {
    AssignedUpdate(es, idx, es[idx].(count := es[idx].count + 1));
  }

  /** The list of routes kept by the page. */
  class CorreriaList {
    var entries: seq<Correria>

    /** `let correrias = []`. */
    constructor()
      ensures entries == []
    {
      entries := [];
    }

    /** `addCorreriaRow`: a new route with no points and no terminal, at the
        index equal to the previous length. */
    method Add(name: string) returns (idx: nat)
      modifies this
      ensures idx == |old(entries)|
      ensures entries == old(entries) + [Correria(name, 0, "")]
      ensures entries[idx] == Correria(name, 0, "")
      ensures Assigned(entries) == Assigned(old(entries))
    {
      idx := |entries|;
      AssignedAppend(entries, Correria(name, 0, ""));
      entries := entries + [Correria(name, 0, "")];
    }

    /** `saveCorreriaName`: the typed name, trimmed, becomes a new route; a
        blank name adds nothing. */
    method SaveName(input: string) returns (added: Option<nat>)
      modifies this
      ensures JsText.Trim(input) == [] ==> added == None && entries == old(entries)
      ensures JsText.Trim(input) != [] ==>
                added == Some(|old(entries)|)
                && entries == old(entries) + [Correria(JsText.Trim(input), 0, "")]
    {
      var name := JsText.Trim(input);
      if name == [] {
        added := None;
      } else {
        var idx := Add(name);
        added := Some(idx);
      }
    }

    /** A point assigned to the route at `idx` (a successful reply to the
        assignment): that route's count goes up by one; with no row at `idx`
        nothing changes. */
    method RecordAssignment(idx: nat)
      modifies this
      ensures idx < |old(entries)| ==> entries == Bumped(old(entries), idx)
      ensures idx >= |old(entries)| ==> entries == old(entries)
      ensures Assigned(entries) == Assigned(old(entries)) + (if idx < |old(entries)| then 1 else 0)
    {
      if idx < |entries| {
        BumpedCounts(entries, idx);
        entries := entries[idx := entries[idx].(count := entries[idx].count + 1)];
      }
    }

    /** `saveCorreria`: the edited name (the input's value, or the cell's
        text when the row is not being edited) and the terminal input, both
        trimmed, replace the entry's name and terminal; with no row at `idx`
        or a blank name nothing changes. With a project open, the page then
        asks the server to write the terminal into `Tpl` of the rows whose
        `Description` is the name; without one it only warns. */
    method Save(idx: nat, nameText: string, terminalText: Option<string>, projectOpen: bool)
      returns (request: Option<TplRequest>)
      modifies this
      ensures idx >= |old(entries)| || JsText.Trim(nameText) == [] ==>
                request == None && entries == old(entries)
      ensures idx < |old(entries)| && JsText.Trim(nameText) != [] ==>
                var terminal := if terminalText.Some? then JsText.Trim(terminalText.value) else "";
                entries == old(entries)[idx := old(entries)[idx].(name := JsText.Trim(nameText), terminal := terminal)]
                && (projectOpen ==> request == Some(TplRequest(JsText.Trim(nameText), terminal)))
                && (!projectOpen ==> request == None)
      ensures request.Some? ==> request.value.description != []
                                && JsText.Trim(request.value.description) == request.value.description
      ensures Assigned(entries) == Assigned(old(entries))
    {
      var name := JsText.Trim(nameText);
      if idx >= |entries| || name == [] {
        request := None;
        return;
      }
      var terminal := if terminalText.Some? then JsText.Trim(terminalText.value) else "";
      var e := entries[idx].(name := name, terminal := terminal);
      AssignedUpdate(entries, idx, e);
      entries := entries[idx := e];
      JsText.TrimOfTrimmed(name);
      if projectOpen {
        request := Some(TplRequest(name, terminal));
      } else {
        request := None;
      }
    }
  }
}
