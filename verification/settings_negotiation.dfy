/** The settings negotiator of `HTTP2Connection`: merging a received SETTINGS
    frame into the remote settings table, one parameter at a time. */
module SettingsNegotiation {
  import opened Outcomes
  import opened Frames

  /** Remote settings, keyed by identifier; each entry is the parameter last stored for it. */
  type SettingsTable = map<SettingIdentifier, SettingParameter>

  /** The identifiers a parameter sequence mentions. */
  function Identifiers(ps: seq<SettingParameter>): set<SettingIdentifier> {
    set i | 0 <= i < |ps| :: ps[i].identifier
  }

  /** The last parameter in `ps` carrying identifier `id`, if any: the
      reference meaning of "later duplicates win". */
  function Latest(ps: seq<SettingParameter>, id: SettingIdentifier): (r: Option<SettingParameter>)
    ensures r.None? <==> id !in Identifiers(ps)
    ensures r.Some? ==> r.value.identifier == id && r.value in ps
  {
    if |ps| == 0 then None
    else if ps[|ps| - 1].identifier == id then Some(ps[|ps| - 1])
    else
      var r := Latest(ps[..|ps| - 1], id);
      assert Identifiers(ps) == Identifiers(ps[..|ps| - 1]) + {ps[|ps| - 1].identifier};
      r
  }

  /** `Latest` picks the occurrence no later parameter overrides. */
  lemma {:induction false} LatestIsLastOccurrence(ps: seq<SettingParameter>, i: nat)
    requires i < |ps|
    requires forall j | i < j < |ps| :: ps[j].identifier != ps[i].identifier
    ensures Latest(ps, ps[i].identifier) == Some(ps[i])
    decreases |ps|
  {
    if i < |ps| - 1 {
      var init := ps[..|ps| - 1];
      assert init[i] == ps[i];
      LatestIsLastOccurrence(init, i);
    }
  }

  /** Splitting `Latest` at the front of the sequence: a match in the tail
      overrides the head. */
  lemma {:induction false} LatestOfCons(ps: seq<SettingParameter>, id: SettingIdentifier)
    requires 0 < |ps|
    ensures Latest(ps, id) == match Latest(ps[1..], id)
                              case Some(p) => Some(p)
                              case None => if ps[0].identifier == id then Some(ps[0]) else None
    decreases |ps|
  {
    if |ps| > 1 && ps[|ps| - 1].identifier != id {
      var init := ps[..|ps| - 1];
      LatestOfCons(init, id);
      assert init[1..] == ps[1..][..|ps[1..]| - 1];
      assert init[0] == ps[0];
    }
  }

  /** The identifiers of a non-empty sequence: its head's and its tail's. */
  lemma IdentifiersOfCons(ps: seq<SettingParameter>)
    requires 0 < |ps|
    ensures Identifiers(ps) == {ps[0].identifier} + Identifiers(ps[1..])
  {
    forall x | x in Identifiers(ps) ensures x in {ps[0].identifier} + Identifiers(ps[1..]) {
      var i :| 0 <= i < |ps| && ps[i].identifier == x;
      if i > 0 { assert ps[1..][i - 1] == ps[i]; }
    }
    forall x | x in Identifiers(ps[1..]) ensures x in Identifiers(ps) {
      var i :| 0 <= i < |ps[1..]| && ps[1..][i].identifier == x;
      assert ps[i + 1] == ps[1..][i];
    }
  }

  /** The `for` loop over the frame's parameters: each is stored under its
      identifier, in sequence order. The table gains exactly the identifiers
      the parameters mention, and the entries of all other identifiers stay. */
  function ApplyParameters(table: SettingsTable, ps: seq<SettingParameter>): (r: SettingsTable)
    ensures r.Keys == table.Keys + Identifiers(ps)
    ensures forall id | id in table && id !in Identifiers(ps) :: r[id] == table[id]
    decreases |ps|
  {
    if |ps| == 0 then table
    else
      IdentifiersOfCons(ps);
      ApplyParameters(table[ps[0].identifier := ps[0]], ps[1..])
  }

  /** What the loop leaves in the table: the last parameter for each identifier
      the frame mentions, the old entry for every other identifier. */
  lemma {:induction false} ApplyParametersMeaning(table: SettingsTable, ps: seq<SettingParameter>)
    ensures ApplyParameters(table, ps).Keys == table.Keys + Identifiers(ps)
    ensures forall id | id in ApplyParameters(table, ps) ::
              ApplyParameters(table, ps)[id] == match Latest(ps, id)
                                                case Some(p) => p
                                                case None => table[id]
    decreases |ps|
  {
    if |ps| > 0 {
      var table' := table[ps[0].identifier := ps[0]];
      ApplyParametersMeaning(table', ps[1..]);
      IdentifiersOfCons(ps);
      forall id | id in ApplyParameters(table, ps)
        ensures ApplyParameters(table, ps)[id] == match Latest(ps, id)
                                                 case Some(p) => p
                                                 case None => table[id]
      {
        LatestOfCons(ps, id);
      }
    }
  }

  /** `updateRemoteSettings`: a frame on stream 0 has its parameters stored in
      sequence order; a frame on any other stream changes nothing (the
      connection error the protocol asks for is not raised). */
  function UpdateRemoteSettings(remote: SettingsTable, f: Frame): (r: SettingsTable)
    requires f.SettingsFrame?
    ensures f.header.streamId != 0 ==> r == remote
    ensures f.header.streamId == 0 ==> r.Keys == remote.Keys + Identifiers(f.parameters)
    ensures f.header.streamId == 0 ==>
              forall id | id in r :: r[id] == match Latest(f.parameters, id)
                                              case Some(p) => p
                                              case None => remote[id]
  {
    if f.header.streamId == 0 then
      ApplyParametersMeaning(remote, f.parameters);
      ApplyParameters(remote, f.parameters)
    else
      remote
  }

  /** Applying the same frame twice leaves the table as applying it once. */
  lemma UpdateRemoteSettingsIdempotent(remote: SettingsTable, f: Frame)
    requires f.SettingsFrame?
    ensures UpdateRemoteSettings(UpdateRemoteSettings(remote, f), f) == UpdateRemoteSettings(remote, f)
  {
  }

  /** Within one frame a later parameter overrides an earlier one with the
      same identifier. */
  lemma LaterDuplicateWins(remote: SettingsTable, f: Frame, i: nat)
    requires f.SettingsFrame? && f.header.streamId == 0
    requires i < |f.parameters|
    requires forall j | i < j < |f.parameters| :: f.parameters[j].identifier != f.parameters[i].identifier
    ensures var id := f.parameters[i].identifier;
            id in UpdateRemoteSettings(remote, f) && UpdateRemoteSettings(remote, f)[id] == f.parameters[i]
  {
    LatestIsLastOccurrence(f.parameters, i);
    assert f.parameters[i].identifier in Identifiers(f.parameters);
  }

  /** Identifiers a frame does not mention keep their entries (or their absence). */
  lemma UnmentionedKept(remote: SettingsTable, f: Frame, id: SettingIdentifier)
    requires f.SettingsFrame?
    requires id !in Identifiers(f.parameters)
    ensures id in UpdateRemoteSettings(remote, f) <==> id in remote
    ensures id in remote ==> UpdateRemoteSettings(remote, f)[id] == remote[id]
  {
  }

  /** Of two stream-0 frames sharing an identifier, the later frame's value
      is the one that stays. */
  lemma LaterFrameWins(remote: SettingsTable, f1: Frame, f2: Frame, id: SettingIdentifier)
    requires f1.SettingsFrame? && f2.SettingsFrame? && f2.header.streamId == 0
    requires id in Identifiers(f2.parameters)
    ensures var r := UpdateRemoteSettings(UpdateRemoteSettings(remote, f1), f2);
            id in r && r[id] == Latest(f2.parameters, id).value
  {
  }
}
