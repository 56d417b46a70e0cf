/** The repair of SPP settings whose newest version was left inactive: the newest inactive setting of a plugin is
    swapped with the newest active one, keeping the stage names of the latter. */
module SettingRepair {
  import opened Keys
  import opened Chronology
  import opened Counting

  datatype SettingStatus = Active | Inactive

  datatype Terms = Terms(
    stageIndex: nat, minAdvance: nat, maxAdvance: nat, voteDuration: nat, approvalThreshold: nat, vetoThreshold: nat,
    plugins: seq<string>, cancelable: Option<bool>, editable: Option<bool>)

  datatype Stage = Stage(name: Option<string>, terms: Terms)

  datatype Setting = Setting(
    pluginAddress: Address, isSpp: bool, blockNumber: nat, transactionHash: string, status: SettingStatus,
    stages: seq<Stage>)

  /** The positions of one plugin's SPP settings, each once, in any order. */
  ghost predicate IsGroup(rows: seq<Setting>, plugin: Address, group: seq<nat>) {
    && NoRepeats(group)
    && forall n: nat :: n in group <==> n < |rows| && rows[n].isSpp && rows[n].pluginAddress == plugin
  }

  ghost predicate Within(rows: seq<Setting>, s: seq<nat>) {
    forall a | 0 <= a < |s| :: s[a] < |rows|
  }

  ghost predicate Descends(rows: seq<Setting>, s: seq<nat>)
    requires Within(rows, s)
  {
    forall a, b | 0 <= a < b < |s| :: rows[s[a]].blockNumber >= rows[s[b]].blockNumber
  }

  /** `sort((a, b) => b.blockNumber - a.blockNumber)`, stable. */
  function SortByBlock(rows: seq<Setting>, group: seq<nat>): (sorted: seq<nat>)
    requires Within(rows, group)
    ensures forall n :: n in sorted <==> n in group
    ensures Within(rows, sorted) && Descends(rows, sorted)
  {
    if group == [] then []
    else
      var last := |group| - 1;
      assert forall n :: n in group <==> n in group[..last] || n == group[last];
      InsertByBlock(rows, SortByBlock(rows, group[..last]), group[last])
  }

  function InsertByBlock(rows: seq<Setting>, sorted: seq<nat>, n: nat): (inserted: seq<nat>)
    requires Within(rows, sorted) && Descends(rows, sorted) && n < |rows|
    ensures forall m :: m in inserted <==> m in sorted || m == n
    ensures Within(rows, inserted) && Descends(rows, inserted)
    ensures inserted != [] && (inserted[0] == n || (sorted != [] && inserted[0] == sorted[0]))
  {
    if sorted == [] then [n]
    else if rows[sorted[0]].blockNumber < rows[n].blockNumber then [n] + sorted
    else
      var rest := InsertByBlock(rows, sorted[1..], n);
      [sorted[0]] + rest
  }

  function FirstWith(rows: seq<Setting>, sorted: seq<nat>, status: SettingStatus): (found: Option<nat>)
    requires Within(rows, sorted)
    ensures found.Some? ==> found.value in sorted && found.value < |rows| && rows[found.value].status == status
  {
    if sorted == [] then None
    else if rows[sorted[0]].status == status then Some(sorted[0])
    else FirstWith(rows, sorted[1..], status)
  }

  /** A newest setting of the group with this status. */
  ghost predicate IsNewestWith(rows: seq<Setting>, group: seq<nat>, status: SettingStatus, n: nat) {
    && n in group && n < |rows| && rows[n].status == status
    && forall m | m in group && m < |rows| && rows[m].status == status :: rows[m].blockNumber <= rows[n].blockNumber
  }

  lemma {:induction false} FirstWithIsNewest(rows: seq<Setting>, sorted: seq<nat>, status: SettingStatus)
    requires Within(rows, sorted) && Descends(rows, sorted)
    ensures FirstWith(rows, sorted, status).None? ==>
              forall n | n in sorted && n < |rows| :: rows[n].status != status
    ensures FirstWith(rows, sorted, status).Some? ==>
              IsNewestWith(rows, sorted, status, FirstWith(rows, sorted, status).value)
  {
    if sorted != [] {
      FirstWithIsNewest(rows, sorted[1..], status);
      forall n | n in sorted ensures n == sorted[0] || n in sorted[1..] {
      }
      forall m | m in sorted ensures m < |rows| && rows[m].blockNumber <= rows[sorted[0]].blockNumber {
        var a :| 0 <= a < |sorted| && sorted[a] == m;
      }
    }
  }

  /** The newest inactive and the newest active setting, when the inactive one is newer. */
  function ToSwap(rows: seq<Setting>, group: seq<nat>): (swap: Option<(nat, nat)>)
    requires Within(rows, group)
    ensures swap.Some? ==> swap.value.0 < |rows| && swap.value.1 < |rows|
  {
    var sorted := SortByBlock(rows, group);
    var inactive, active := FirstWith(rows, sorted, Inactive), FirstWith(rows, sorted, Active);
    if inactive.Some? && active.Some? && rows[inactive.value].blockNumber > rows[active.value].blockNumber
    then Some((inactive.value, active.value)) else None
  }

  lemma ToSwapIsNewest(rows: seq<Setting>, group: seq<nat>)
    requires Within(rows, group)
    ensures ToSwap(rows, group).Some? ==>
              IsSwap(rows, group, ToSwap(rows, group).value.0, ToSwap(rows, group).value.1)
    ensures ToSwap(rows, group).None? <==> InOrder(rows, group)
  {
    var sorted := SortByBlock(rows, group);
    FirstWithIsNewest(rows, sorted, Inactive);
    FirstWithIsNewest(rows, sorted, Active);
  }

  ghost predicate IsSwap(rows: seq<Setting>, group: seq<nat>, inactive: nat, active: nat) {
    && IsNewestWith(rows, group, Inactive, inactive)
    && IsNewestWith(rows, group, Active, active)
    && rows[inactive].blockNumber > rows[active].blockNumber
  }

  /** No inactive setting is strictly newer than every active one, unless the plugin has no active one at all. */
  ghost predicate InOrder(rows: seq<Setting>, group: seq<nat>) {
    || (forall n | n in group && n < |rows| :: rows[n].status.Inactive?)
    || forall n | n in group && n < |rows| && rows[n].status.Inactive? ::
         exists m :: m in group && m < |rows| && rows[m].status.Active? && rows[m].blockNumber >= rows[n].blockNumber
  }

  /** `{ ...stage, name: active.stages[index].name }`. */
  function MergeNames(inactive: seq<Stage>, active: seq<Stage>): (merged: seq<Stage>)
    requires |inactive| <= |active|
    ensures |merged| == |inactive|
    ensures forall n | 0 <= n < |inactive| :: merged[n] == Stage(active[n].name, inactive[n].terms)
  {
    seq(|inactive|, n requires 0 <= n < |inactive| => inactive[n].(name := active[n].name))
  }

  /** Which of the two updates took effect; a failed one is only logged. */
  datatype Writes = Writes(promoted: bool, demoted: bool)

  function Swap(rows: seq<Setting>, inactive: nat, active: nat, writes: Writes): seq<Setting>
    requires inactive < |rows| && active < |rows| && |rows[inactive].stages| <= |rows[active].stages|
  {
    var merged := MergeNames(rows[inactive].stages, rows[active].stages);
    var promoted :=
      if writes.promoted then rows[inactive := rows[inactive].(status := Active, stages := merged)] else rows;
    if writes.demoted then promoted[active := promoted[active].(status := Inactive)] else promoted
  }

  /** Reading the stage names throws: the setting to promote has a stage the active one does not have. */
  predicate Throws(rows: seq<Setting>, group: seq<nat>)
    requires Within(rows, group)
  {
    var swap := ToSwap(rows, group);
    swap.Some? && |rows[swap.value.0].stages| > |rows[swap.value.1].stages|
  }

  /** One group; nothing when its repair throws. */
  function RepairGroup(rows: seq<Setting>, group: seq<nat>, writes: Writes): (after: Option<seq<Setting>>)
    requires Within(rows, group)
    ensures after.None? <==> Throws(rows, group)
    ensures after.Some? ==> |after.value| == |rows|
  {
    var swap := ToSwap(rows, group);
    if Throws(rows, group) then None
    else if swap.None? then Some(rows)
    else Some(Swap(rows, swap.value.0, swap.value.1, writes))
  }

  /** The active settings of the group. */
  ghost function ActiveOf(rows: seq<Setting>, group: seq<nat>): set<nat> {
    set n | n in group && n < |rows| && rows[n].status.Active?
  }

  /** The number of active settings moves with the updates that took effect: both keep it, a lost demotion leaves one
      too many and a lost promotion one too few. */
  lemma ActiveAfterSwap(rows: seq<Setting>, group: seq<nat>, inactive: nat, active: nat, writes: Writes)
    requires IsSwap(rows, group, inactive, active) && |rows[inactive].stages| <= |rows[active].stages|
    ensures |ActiveOf(Swap(rows, inactive, active, writes), group)| ==
            |ActiveOf(rows, group)| + (if writes.promoted then 1 else 0) - (if writes.demoted then 1 else 0)
  {
    var was := ActiveOf(rows, group);
    var promoted := if writes.promoted then was + {inactive} else was;
    assert inactive !in was && active in promoted;
    assert ActiveOf(Swap(rows, inactive, active, writes), group) ==
           if writes.demoted then promoted - {active} else promoted;
  }

  /** A promotion puts the group in order: the promoted setting is as new as any inactive one. */
  lemma InOrderAfterSwap(rows: seq<Setting>, group: seq<nat>, inactive: nat, active: nat, writes: Writes)
    requires IsSwap(rows, group, inactive, active) && |rows[inactive].stages| <= |rows[active].stages|
    requires writes.promoted
    ensures InOrder(Swap(rows, inactive, active, writes), group)
  {
    var after := Swap(rows, inactive, active, writes);
    assert inactive in group && after[inactive].status.Active?;
    forall n | n in group && n < |after| && after[n].status.Inactive?
      ensures after[inactive].blockNumber >= after[n].blockNumber
    {
    }
  }

  /** A swap touches two settings of the group, in nothing but their statuses and the promoted one's stage names. */
  lemma SwapTouches(rows: seq<Setting>, inactive: nat, active: nat, writes: Writes)
    requires inactive < |rows| && active < |rows| && |rows[inactive].stages| <= |rows[active].stages|
    ensures var after := Swap(rows, inactive, active, writes);
            && |after| == |rows|
            && forall n | 0 <= n < |rows| ::
                 && (n != inactive && n != active ==> after[n] == rows[n])
                 && after[n] == rows[n].(status := after[n].status, stages := after[n].stages)
                 && |after[n].stages| == |rows[n].stages|
                 && forall s | 0 <= s < |rows[n].stages| ::
                      && after[n].stages[s].terms == rows[n].stages[s].terms
                      && after[n].stages[s].name ==
                         if n == inactive && writes.promoted then rows[active].stages[s].name
                         else rows[n].stages[s].name
  {
  }

  /** The repair of one group leaves a group in order alone and puts another one in order if the promotion takes
      effect; the number of active settings moves with the updates that do. */
  lemma RepairResult(rows: seq<Setting>, group: seq<nat>, writes: Writes)
    requires Within(rows, group)
    ensures var result := RepairGroup(rows, group, writes);
            && (InOrder(rows, group) ==> result == Some(rows))
            && (result.Some? ==> IsRepaired(rows, result.value, group, writes))
  {
    hide SortByBlock, FirstWith;
    ToSwapIsNewest(rows, group);
    var swap := ToSwap(rows, group);
    if swap.Some? && !Throws(rows, group) {
      if writes.promoted {
        InOrderAfterSwap(rows, group, swap.value.0, swap.value.1, writes);
      }
      ActiveAfterSwap(rows, group, swap.value.0, swap.value.1, writes);
    }
  }

  /** What the repair of a group comes to, seen on its settings. */
  ghost predicate IsRepaired(rows: seq<Setting>, after: seq<Setting>, group: seq<nat>, writes: Writes) {
    && (InOrder(rows, group) || writes.promoted ==> InOrder(after, group))
    && |ActiveOf(after, group)| ==
       |ActiveOf(rows, group)|
       + if InOrder(rows, group) then 0 else (if writes.promoted then 1 else 0) - (if writes.demoted then 1 else 0)
  }

  /** Same settings at the positions of the group. */
  ghost predicate AgreeOn(rows: seq<Setting>, rows': seq<Setting>, group: seq<nat>) {
    |rows'| == |rows| && forall n | n in group && n < |rows| :: rows'[n] == rows[n]
  }

  lemma AgreeingIsRepaired(
    rows: seq<Setting>, after: seq<Setting>, after': seq<Setting>, group: seq<nat>, writes: Writes)
    requires AgreeOn(after, after', group)
    ensures IsRepaired(rows, after, group, writes) ==> IsRepaired(rows, after', group, writes)
  {
    assert ActiveOf(after, group) == ActiveOf(after', group);
  }

  // ---- a group is repaired as if it were alone ----

  lemma {:induction false} SortIsLocal(rows: seq<Setting>, rows': seq<Setting>, group: seq<nat>)
    requires Within(rows, group) && AgreeOn(rows, rows', group)
    ensures SortByBlock(rows', group) == SortByBlock(rows, group)
  {
    if group != [] {
      var last := |group| - 1;
      assert forall n :: n in group <==> n in group[..last] || n == group[last];
      SortIsLocal(rows, rows', group[..last]);
      InsertIsLocal(rows, rows', SortByBlock(rows, group[..last]), group[last]);
    }
  }

  lemma {:induction false} InsertIsLocal(rows: seq<Setting>, rows': seq<Setting>, sorted: seq<nat>, n: nat)
    requires Within(rows, sorted) && Descends(rows, sorted) && n < |rows|
    requires AgreeOn(rows, rows', sorted) && rows'[n] == rows[n]
    ensures Within(rows', sorted) && Descends(rows', sorted)
    ensures InsertByBlock(rows', sorted, n) == InsertByBlock(rows, sorted, n)
  {
    assert forall a | 0 <= a < |sorted| :: sorted[a] in sorted;
    if sorted != [] {
      assert AgreeOn(rows, rows', sorted[1..]) by {
        assert forall m | m in sorted[1..] :: m in sorted;
      }
      InsertIsLocal(rows, rows', sorted[1..], n);
      hide AgreeOn, Descends, Within;
    }
  }

  lemma {:induction false} FirstWithIsLocal(
    rows: seq<Setting>, rows': seq<Setting>, sorted: seq<nat>, status: SettingStatus)
    requires Within(rows, sorted) && AgreeOn(rows, rows', sorted)
    ensures FirstWith(rows', sorted, status) == FirstWith(rows, sorted, status)
  {
    if sorted != [] {
      assert sorted[0] in sorted && forall m | m in sorted[1..] :: m in sorted;
      FirstWithIsLocal(rows, rows', sorted[1..], status);
    }
  }

  lemma ToSwapIsLocal(rows: seq<Setting>, rows': seq<Setting>, group: seq<nat>)
    requires Within(rows, group) && AgreeOn(rows, rows', group)
    ensures ToSwap(rows', group) == ToSwap(rows, group)
  {
    SortIsLocal(rows, rows', group);
    FirstWithIsLocal(rows, rows', SortByBlock(rows, group), Inactive);
    FirstWithIsLocal(rows, rows', SortByBlock(rows, group), Active);
  }

  lemma SwapIsInGroup(rows: seq<Setting>, group: seq<nat>)
    requires Within(rows, group)
    ensures ToSwap(rows, group).Some? ==>
              ToSwap(rows, group).value.0 in group && ToSwap(rows, group).value.1 in group
  {
  }

  lemma SwapIsLocal(
    rows: seq<Setting>, rows': seq<Setting>, group: seq<nat>, inactive: nat, active: nat, writes: Writes)
    requires AgreeOn(rows, rows', group) && inactive in group && active in group
    requires inactive < |rows| && active < |rows| && |rows[inactive].stages| <= |rows[active].stages|
    ensures AgreeOn(Swap(rows, inactive, active, writes), Swap(rows', inactive, active, writes), group)
    ensures forall n | 0 <= n < |rows'| && n !in group :: Swap(rows', inactive, active, writes)[n] == rows'[n]
  {
  }

  /** The repair reads and writes the settings of its group only. */
  lemma RepairIsLocal(rows: seq<Setting>, rows': seq<Setting>, group: seq<nat>, writes: Writes)
    requires Within(rows, group) && AgreeOn(rows, rows', group)
    ensures var result, result' := RepairGroup(rows, group, writes), RepairGroup(rows', group, writes);
            && (result'.None? <==> result.None?)
            && (result.Some? ==>
                  && AgreeOn(result.value, result'.value, group)
                  && forall n | 0 <= n < |rows'| && n !in group :: result'.value[n] == rows'[n])
  {
    ToSwapIsLocal(rows, rows', group);
    SwapIsInGroup(rows, group);
    var swap := ToSwap(rows, group);
    if swap.Some? && !Throws(rows, group) {
      SwapIsLocal(rows, rows', group, swap.value.0, swap.value.1, writes);
    }
    hide ToSwap, Swap;
  }

  // ---- whole runs ----

  ghost predicate AreGroups(rows: seq<Setting>, plugins: seq<Address>, groups: seq<seq<nat>>) {
    |groups| == |plugins| && forall g | 0 <= g < |groups| :: IsGroup(rows, plugins[g], groups[g])
  }

  ghost predicate HasSeveral(rows: seq<Setting>, plugin: Address) {
    exists m, n :: 0 <= m < n < |rows| && rows[m].isSpp && rows[n].isSpp
                   && rows[m].pluginAddress == rows[n].pluginAddress == plugin
  }

  /** The aggregation: the plugins with more than one SPP setting, each once, with the positions of their settings. */
  ghost predicate Aggregates(rows: seq<Setting>, plugins: seq<Address>, groups: seq<seq<nat>>) {
    && NoRepeats(plugins)
    && AreGroups(rows, plugins, groups)
    && forall a: Address :: a in plugins <==> HasSeveral(rows, a)
  }

  ghost predicate AllWithin(rows: seq<Setting>, groups: seq<seq<nat>>) {
    forall g | 0 <= g < |groups| :: Within(rows, groups[g])
  }

  ghost predicate Disjoint(groups: seq<seq<nat>>) {
    forall g, h | 0 <= g < |groups| && 0 <= h < |groups| && g != h :: forall n | n in groups[g] :: n !in groups[h]
  }

  lemma GroupsAreDisjoint(rows: seq<Setting>, plugins: seq<Address>, groups: seq<seq<nat>>)
    requires NoRepeats(plugins) && AreGroups(rows, plugins, groups)
    ensures AllWithin(rows, groups) && Disjoint(groups)
  {
    forall g | 0 <= g < |groups| ensures Within(rows, groups[g]) {
      assert forall a | 0 <= a < |groups[g]| :: groups[g][a] in groups[g];
    }
    forall g, h, n | 0 <= g < |groups| && 0 <= h < |groups| && g != h && n in groups[g] ensures n !in groups[h] {
      assert plugins[g] != plugins[h];
    }
  }

  /** The groups repaired in turn; nothing when one of the repairs throws. */
  ghost function RepairAll(
    rows: seq<Setting>, groups: seq<seq<nat>>, writes: seq<Writes>): (after: Option<seq<Setting>>)
    requires |writes| == |groups| && AllWithin(rows, groups)
    ensures after.Some? ==> |after.value| == |rows|
  {
    if groups == [] then Some(rows)
    else
      var last := |groups| - 1;
      var before := RepairAll(rows, groups[..last], writes[..last]);
      if before.None? then None else RepairGroup(before.value, groups[last], writes[last])
  }

  /** Settings of no repaired group stay as they are. */
  lemma {:induction false} OutsideStays(rows: seq<Setting>, groups: seq<seq<nat>>, writes: seq<Writes>, n: nat)
    requires |writes| == |groups| && AllWithin(rows, groups) && n < |rows|
    requires forall g | 0 <= g < |groups| :: n !in groups[g]
    ensures var after := RepairAll(rows, groups, writes); after.Some? ==> after.value[n] == rows[n]
  {
    if groups != [] {
      var last := |groups| - 1;
      OutsideStays(rows, groups[..last], writes[..last], n);
      var before := RepairAll(rows, groups[..last], writes[..last]);
      if before.Some? {
        RepairIsLocal(before.value, before.value, groups[last], writes[last]);
      }
    }
  }

  /** Before its turn a group is still as the run found it. */
  lemma StillAsFound(rows: seq<Setting>, groups: seq<seq<nat>>, writes: seq<Writes>, group: seq<nat>)
    requires |writes| == |groups| && AllWithin(rows, groups)
    requires forall g | 0 <= g < |groups| :: forall n | n in group :: n !in groups[g]
    ensures var after := RepairAll(rows, groups, writes); after.Some? ==> AgreeOn(rows, after.value, group)
  {
    forall n | n in group && n < |rows|
      ensures var after := RepairAll(rows, groups, writes); after.Some? ==> after.value[n] == rows[n]
    {
      OutsideStays(rows, groups, writes, n);
    }
  }

  /** A run repairs every plugin as if it were alone, whatever the order. */
  lemma {:induction false} RunIsPerGroup(rows: seq<Setting>, groups: seq<seq<nat>>, writes: seq<Writes>, g: nat)
    requires |writes| == |groups| && AllWithin(rows, groups) && Disjoint(groups)
    requires RepairAll(rows, groups, writes).Some? && g < |groups|
    ensures var alone := RepairGroup(rows, groups[g], writes[g]);
            alone.Some? && AgreeOn(alone.value, RepairAll(rows, groups, writes).value, groups[g])
  {
    hide RepairGroup;
    var last := |groups| - 1;
    var before := RepairAll(rows, groups[..last], writes[..last]).value;
    if g == last {
      StillAsFound(rows, groups[..last], writes[..last], groups[last]);
      RepairIsLocal(rows, before, groups[last], writes[last]);
    } else {
      RunIsPerGroup(rows, groups[..last], writes[..last], g);
      RepairIsLocal(before, before, groups[last], writes[last]);
    }
  }

  ghost predicate NoneThrows(rows: seq<Setting>, groups: seq<seq<nat>>)
    requires AllWithin(rows, groups)
  {
    forall g | 0 <= g < |groups| :: !Throws(rows, groups[g])
  }

  lemma NoneThrowsNext(rows: seq<Setting>, groups: seq<seq<nat>>)
    requires groups != [] && AllWithin(rows, groups)
    ensures var last := |groups| - 1;
            NoneThrows(rows, groups) <==> NoneThrows(rows, groups[..last]) && !Throws(rows, groups[last])
  {
    var init := groups[..|groups| - 1];
    assert forall g | 0 <= g < |init| :: init[g] == groups[g];
    hide Throws;
  }

  /** And it completes exactly when no plugin's repair throws. */
  lemma {:induction false} RunCompletesExactly(rows: seq<Setting>, groups: seq<seq<nat>>, writes: seq<Writes>)
    requires |writes| == |groups| && AllWithin(rows, groups) && Disjoint(groups)
    ensures RepairAll(rows, groups, writes).Some? <==> NoneThrows(rows, groups)
  {
    if groups != [] {
      var last := |groups| - 1;
      RunCompletesExactly(rows, groups[..last], writes[..last]);
      NoneThrowsNext(rows, groups);
      var before := RepairAll(rows, groups[..last], writes[..last]);
      if before.Some? {
        StillAsFound(rows, groups[..last], writes[..last], groups[last]);
        ThrowsIsLocal(rows, before.value, groups[last]);
      }
      hide Throws, NoneThrows, RepairGroup, AgreeOn;
    }
  }

  lemma ThrowsIsLocal(rows: seq<Setting>, rows': seq<Setting>, group: seq<nat>)
    requires Within(rows, group) && AgreeOn(rows, rows', group)
    ensures Throws(rows', group) <==> Throws(rows, group)
  {
    ToSwapIsLocal(rows, rows', group);
    SwapIsInGroup(rows, group);
  }

  /** The swap of a group, decided on the settings as the run found them. */
  function Swapped(found: seq<Setting>, now: seq<Setting>, group: seq<nat>, writes: Writes): seq<Setting>
    requires Within(found, group) && AgreeOn(found, now, group) && !Throws(found, group)
  {
    SwapIsInGroup(found, group);
    var swap := ToSwap(found, group);
    if swap.None? then now else Swap(now, swap.value.0, swap.value.1, writes)
  }

  /** One more group, decided on the settings as the run found them. */
  lemma RepairNext(
    found: seq<Setting>, now: seq<Setting>, groups: seq<seq<nat>>, writes: seq<Writes>, r: nat)
    requires |writes| == |groups| && AllWithin(found, groups) && Disjoint(groups) && r < |groups|
    requires RepairAll(found, groups[..r], writes[..r]) == Some(now)
    ensures AllWithin(found, groups[..r]) && AgreeOn(found, now, groups[r])
    ensures !Throws(found, groups[r]) ==>
              RepairAll(found, groups[..r + 1], writes[..r + 1]) == Some(Swapped(found, now, groups[r], writes[r]))
    ensures PromotionsOf(found, groups[..r + 1]) == PromotionsOf(found, groups[..r]) + Offered(found, groups[r])
  {
    assert groups[..r + 1][..r] == groups[..r] && writes[..r + 1][..r] == writes[..r];
    StillAsFound(found, groups[..r], writes[..r], groups[r]);
    ToSwapIsLocal(found, now, groups[r]);
    SwapIsInGroup(found, groups[r]);
    hide ToSwap, Offered, Swap;
  }

  ghost predicate AllPromoted(writes: seq<Writes>) {
    forall g | 0 <= g < |writes| :: writes[g].promoted
  }

  /** After a complete run: every group is repaired according to the updates that took effect, and a second run changes
      nothing and promotes nothing if every promotion took effect. */
  lemma RunResult(rows: seq<Setting>, groups: seq<seq<nat>>, writes: seq<Writes>, later: seq<Writes>)
    requires |writes| == |later| == |groups| && AllWithin(rows, groups) && Disjoint(groups)
    requires RepairAll(rows, groups, writes).Some?
    ensures var after := RepairAll(rows, groups, writes).value;
            && (forall g | 0 <= g < |groups| :: IsRepaired(rows, after, groups[g], writes[g]))
            && (AllPromoted(writes) ==>
                  RepairAll(after, groups, later) == Some(after) && PromotionsOf(after, groups) == [])
  {
    var after := RepairAll(rows, groups, writes).value;
    forall g | 0 <= g < |groups| ensures IsRepaired(rows, after, groups[g], writes[g]) {
      RunIsPerGroup(rows, groups, writes, g);
      RepairResult(rows, groups[g], writes[g]);
      AgreeingIsRepaired(rows, RepairGroup(rows, groups[g], writes[g]).value, after, groups[g], writes[g]);
    }
    if AllPromoted(writes) {
      InOrderStays(after, groups, later);
    }
  }

  /** No inactive SPP setting is of a later block than all active ones of its plugin, unless the plugin has none. */
  ghost predicate NoneIsPassedOver(rows: seq<Setting>) {
    forall n | 0 <= n < |rows| && rows[n].isSpp && rows[n].status.Inactive? ::
      || (forall m | 0 <= m < |rows| && rows[m].isSpp && rows[m].pluginAddress == rows[n].pluginAddress ::
            rows[m].status.Inactive?)
      || exists m :: 0 <= m < |rows| && rows[m].isSpp && rows[m].pluginAddress == rows[n].pluginAddress
                     && rows[m].status.Active? && rows[m].blockNumber >= rows[n].blockNumber
  }

  /** A complete run whose promotions took effect leaves every plugin's settings in order, aggregated or not. */
  lemma RunOrdersEveryPlugin(
    rows: seq<Setting>, plugins: seq<Address>, groups: seq<seq<nat>>, writes: seq<Writes>)
    requires Aggregates(rows, plugins, groups) && |writes| == |groups| && AllPromoted(writes)
    requires AllWithin(rows, groups) && RepairAll(rows, groups, writes).Some?
    ensures NoneIsPassedOver(RepairAll(rows, groups, writes).value)
  {
    var after := RepairAll(rows, groups, writes).value;
    GroupsAreDisjoint(rows, plugins, groups);
    RunResult(rows, groups, writes, writes);
    hide RepairAll;
    forall n | 0 <= n < |rows| ensures SameButNames(rows[n], after[n]) {
      RunTouches(rows, groups, writes, n);
    }
    forall n | 0 <= n < |after| && after[n].isSpp && after[n].status.Inactive?
      ensures
        || (forall m | 0 <= m < |after| && after[m].isSpp && after[m].pluginAddress == after[n].pluginAddress ::
              after[m].status.Inactive?)
        || exists m :: 0 <= m < |after| && after[m].isSpp && after[m].pluginAddress == after[n].pluginAddress
                       && after[m].status.Active? && after[m].blockNumber >= after[n].blockNumber
    {
      var a := rows[n].pluginAddress;
      if a in plugins {
        var g :| 0 <= g < |plugins| && plugins[g] == a;
        assert IsRepaired(rows, after, groups[g], writes[g]) && n in groups[g];
        GroupCovers(rows, after, a, groups[g], n);
      } else {
        assert forall m | 0 <= m < |rows| && rows[m].isSpp && rows[m].pluginAddress == a :: m == n;
      }
    }
  }

  lemma GroupCovers(rows: seq<Setting>, after: seq<Setting>, plugin: Address, group: seq<nat>, n: nat)
    requires IsGroup(rows, plugin, group) && InOrder(after, group) && |after| == |rows|
    requires forall m | 0 <= m < |rows| :: SameButNames(rows[m], after[m])
    requires n in group && after[n].status.Inactive?
    ensures || (forall m | 0 <= m < |after| && after[m].isSpp && after[m].pluginAddress == plugin ::
                  after[m].status.Inactive?)
            || exists m :: 0 <= m < |after| && after[m].isSpp && after[m].pluginAddress == plugin
                           && after[m].status.Active? && after[m].blockNumber >= after[n].blockNumber
  {
    forall m | 0 <= m < |after| ensures m in group <==> after[m].isSpp && after[m].pluginAddress == plugin {
      assert SameButNames(rows[m], after[m]);
    }
  }

  /** A setting that is no SPP's belongs to no group. */
  lemma OthersStay(
    rows: seq<Setting>, plugins: seq<Address>, groups: seq<seq<nat>>, writes: seq<Writes>, r: nat, n: nat)
    requires Aggregates(rows, plugins, groups) && |writes| == |groups| && r <= |groups| && n < |rows| && !rows[n].isSpp
    requires AllWithin(rows, groups[..r])
    ensures var after := RepairAll(rows, groups[..r], writes[..r]); after.Some? ==> after.value[n] == rows[n]
  {
    OutsideStays(rows, groups[..r], writes[..r], n);
  }

  /** An active and an inactive setting are swapped exactly when the inactive one is of a later block. */
  lemma PairIsSwapped(rows: seq<Setting>, active: nat, inactive: nat)
    requires active < |rows| && inactive < |rows|
    requires rows[active].status.Active? && rows[inactive].status.Inactive?
    ensures Within(rows, [active, inactive])
    ensures ToSwap(rows, [active, inactive]) ==
            if rows[active].blockNumber < rows[inactive].blockNumber then Some((inactive, active)) else None
  {
    var group: seq<nat> := [active, inactive];
    hide SortByBlock, FirstWith;
    ToSwapIsNewest(rows, group);
    assert forall n :: n in group <==> n == active || n == inactive;
    if rows[active].blockNumber < rows[inactive].blockNumber {
      assert !InOrder(rows, group) by {
        assert inactive in group && active in group;
      }
    }
  }

  /** An active setting without stages and a newer inactive one with one: the run ends there. */
  lemma ThrowsPitfall(plugin: Address, stage: Stage)
    ensures var rows := [Setting(plugin, true, 1, "a", Active, []), Setting(plugin, true, 2, "b", Inactive, [stage])];
            IsGroup(rows, plugin, [0, 1]) && Throws(rows, [0, 1])
  {
    var rows := [Setting(plugin, true, 1, "a", Active, []), Setting(plugin, true, 2, "b", Inactive, [stage])];
    PairIsSwapped(rows, 0, 1);
  }

  /** A run leaves groups in order alone, even those a lost demotion left with two active settings, or a lost promotion
      with none. */
  lemma {:induction false} InOrderStays(rows: seq<Setting>, groups: seq<seq<nat>>, writes: seq<Writes>)
    requires |writes| == |groups| && AllWithin(rows, groups)
    requires forall g | 0 <= g < |groups| :: InOrder(rows, groups[g])
    ensures RepairAll(rows, groups, writes) == Some(rows) && PromotionsOf(rows, groups) == []
  {
    if groups != [] {
      var last := |groups| - 1;
      InOrderStays(rows, groups[..last], writes[..last]);
      RepairResult(rows, groups[last], writes[last]);
      ToSwapIsNewest(rows, groups[last]);
    }
  }

  /** Whatever takes effect, a run changes nothing of a setting but its status and the names of its stages. */
  lemma {:induction false} RunTouches(rows: seq<Setting>, groups: seq<seq<nat>>, writes: seq<Writes>, n: nat)
    requires |writes| == |groups| && AllWithin(rows, groups) && n < |rows|
    requires RepairAll(rows, groups, writes).Some?
    ensures SameButNames(rows[n], RepairAll(rows, groups, writes).value[n])
  {
    if groups != [] {
      var last := |groups| - 1;
      RunTouches(rows, groups[..last], writes[..last], n);
      var before := RepairAll(rows, groups[..last], writes[..last]).value;
      var swap := ToSwap(before, groups[last]);
      hide ToSwap;
      if swap.Some? {
        SwapTouches(before, swap.value.0, swap.value.1, writes[last]);
      }
    }
  }

  predicate SameButNames(s: Setting, t: Setting) {
    && t == s.(status := t.status, stages := t.stages)
    && |t.stages| == |s.stages|
    && forall n | 0 <= n < |s.stages| :: t.stages[n].terms == s.stages[n].terms
  }

  // ---- proposals ----

  /** A proposal keeps the stages of the setting it was created under, named by the setting's transaction. */
  datatype Proposal = Proposal(pluginAddress: Address, settingTransaction: string, blockNumber: nat, stages: seq<Stage>)

  datatype Promotion = Promotion(pluginAddress: Address, transactionHash: string, blockNumber: nat, stages: seq<Stage>)

  /** The query for the proposals of a promoted setting: by transaction and block, not by plugin. */
  predicate IsFixedBy(q: Proposal, m: Promotion) {
    q.settingTransaction == m.transactionHash && q.blockNumber > m.blockNumber
  }

  function FixProposals(proposals: seq<Proposal>, m: Promotion): seq<Proposal> {
    seq(|proposals|, n requires 0 <= n < |proposals| =>
      if IsFixedBy(proposals[n], m) then proposals[n].(stages := m.stages) else proposals[n])
  }

  function FixAll(proposals: seq<Proposal>, promotions: seq<Promotion>): (fixed: seq<Proposal>)
    ensures |fixed| == |proposals|
  {
    if promotions == [] then proposals
    else FixProposals(FixAll(proposals, promotions[..|promotions| - 1]), promotions[|promotions| - 1])
  }

  /** The last promotion a proposal is fixed by. */
  function LastFix(promotions: seq<Promotion>, q: Proposal): (last: Option<nat>)
    ensures last.Some? ==> last.value < |promotions| && IsFixedBy(q, promotions[last.value])
    ensures forall n | (if last.Some? then last.value else -1) < n < |promotions| :: !IsFixedBy(q, promotions[n])
  {
    if promotions == [] then None
    else if IsFixedBy(q, promotions[|promotions| - 1]) then Some(|promotions| - 1)
    else LastFix(promotions[..|promotions| - 1], q)
  }

  lemma {:induction false} ProposalsGetLastFix(proposals: seq<Proposal>, promotions: seq<Promotion>)
    ensures var after := FixAll(proposals, promotions);
            |after| == |proposals| && forall n | 0 <= n < |proposals| ::
              var last := LastFix(promotions, proposals[n]);
              after[n] == if last.None? then proposals[n]
                          else proposals[n].(stages := promotions[last.value].stages)
  {
    if promotions != [] {
      ProposalsGetLastFix(proposals, promotions[..|promotions| - 1]);
    }
  }

  /** Promotion `m` is the last one of the proposal's transaction from a block below the proposal's. */
  ghost predicate IsLastPromotion(q: Proposal, promotions: seq<Promotion>, m: int) {
    && 0 <= m < |promotions|
    && promotions[m].transactionHash == q.settingTransaction && promotions[m].blockNumber < q.blockNumber
    && forall l | m < l < |promotions| ::
         promotions[l].transactionHash != q.settingTransaction || promotions[l].blockNumber >= q.blockNumber
  }

  /** A proposal ends with the stages of the last such promotion, and is otherwise as it was. */
  ghost predicate AreFixed(proposals: seq<Proposal>, after: seq<Proposal>, promotions: seq<Promotion>) {
    && |after| == |proposals|
    && forall n | 0 <= n < |proposals| ::
         && (forall m | IsLastPromotion(proposals[n], promotions, m) ::
               after[n] == proposals[n].(stages := promotions[m].stages))
         && ((forall m :: !IsLastPromotion(proposals[n], promotions, m)) ==> after[n] == proposals[n])
  }

  lemma FixedExactly(proposals: seq<Proposal>, promotions: seq<Promotion>)
    ensures AreFixed(proposals, FixAll(proposals, promotions), promotions)
  {
    ProposalsGetLastFix(proposals, promotions);
    forall n | 0 <= n < |proposals|
      ensures forall m | IsLastPromotion(proposals[n], promotions, m) :: LastFix(promotions, proposals[n]) == Some(m)
      ensures LastFix(promotions, proposals[n]).Some? ==>
                IsLastPromotion(proposals[n], promotions, LastFix(promotions, proposals[n]).value)
    {
      forall m | IsLastPromotion(proposals[n], promotions, m)
        ensures LastFix(promotions, proposals[n]) == Some(m)
      {
        assert IsFixedBy(proposals[n], promotions[m]);
      }
    }
    hide FixAll, LastFix, IsLastPromotion;
  }

  /** A proposal of a promoted setting ends with the stages of its own plugin exactly when no setting promoted later
      from the same transaction, below the proposal's block, is the last such one with other stages. */
  lemma OwnStagesExactly(proposals: seq<Proposal>, promotions: seq<Promotion>, n: nat, own: nat)
    requires n < |proposals| && own < |promotions|
    requires proposals[n].pluginAddress == promotions[own].pluginAddress && IsFixedBy(proposals[n], promotions[own])
    ensures FixAll(proposals, promotions)[n].stages == promotions[own].stages <==>
            !exists m :: own < m < |promotions| && IsFixedBy(proposals[n], promotions[m])
                         && (forall l | m < l < |promotions| :: !IsFixedBy(proposals[n], promotions[l]))
                         && promotions[m].stages != promotions[own].stages
  {
    ProposalsGetLastFix(proposals, promotions);
    var last := LastFix(promotions, proposals[n]).value;
    if promotions[last].stages != promotions[own].stages {
      assert own < last && IsFixedBy(proposals[n], promotions[last]);
    }
  }

  /** What the repair of a group offers to the proposals: the merged stages, whether or not the promotion takes
      effect. */
  function PromotionOf(rows: seq<Setting>, group: seq<nat>): Option<Promotion>
    requires Within(rows, group)
  {
    var swap := ToSwap(rows, group);
    if swap.None? || Throws(rows, group) then None
    else
      var inactive, active := rows[swap.value.0], rows[swap.value.1];
      Some(Promotion(inactive.pluginAddress, inactive.transactionHash, inactive.blockNumber,
                     MergeNames(inactive.stages, active.stages)))
  }

  ghost function Offered(rows: seq<Setting>, group: seq<nat>): seq<Promotion>
    requires Within(rows, group)
  {
    var promotion := PromotionOf(rows, group);
    if promotion.Some? then [promotion.value] else []
  }

  ghost function PromotionsOf(rows: seq<Setting>, groups: seq<seq<nat>>): seq<Promotion>
    requires AllWithin(rows, groups)
  {
    if groups == [] then []
    else
      var last := |groups| - 1;
      PromotionsOf(rows, groups[..last]) + Offered(rows, groups[last])
  }

  /** The promotion of a group out of order: place and terms are those of its newest inactive setting, the stage names
      those of its newest active one. */
  ghost predicate IsPromotionOf(m: Promotion, rows: seq<Setting>, group: seq<nat>) {
    exists inactive: nat, active: nat ::
      IsSwap(rows, group, inactive, active) && TakesFrom(m, rows[inactive], rows[active])
  }

  ghost predicate TakesFrom(m: Promotion, inactive: Setting, active: Setting) {
    && m.pluginAddress == inactive.pluginAddress
    && m.transactionHash == inactive.transactionHash && m.blockNumber == inactive.blockNumber
    && |m.stages| == |inactive.stages| <= |active.stages|
    && forall n | 0 <= n < |m.stages| ::
         m.stages[n].terms == inactive.stages[n].terms && m.stages[n].name == active.stages[n].name
  }

  /** The groups below `bound` that are out of order. */
  ghost function OutOfOrderBelow(rows: seq<Setting>, groups: seq<seq<nat>>, bound: nat): set<nat> {
    set g | 0 <= g < bound && g < |groups| && !InOrder(rows, groups[g])
  }

  /** The promotions are those of the groups out of order, in the order of the groups. */
  ghost predicate ArePromotions(promotions: seq<Promotion>, rows: seq<Setting>, groups: seq<seq<nat>>) {
    && |promotions| == |OutOfOrderBelow(rows, groups, |groups|)|
    && forall g | 0 <= g < |groups| && !InOrder(rows, groups[g]) ::
         HasItsPromotion(promotions, rows, groups, g)
  }

  ghost predicate HasItsPromotion(promotions: seq<Promotion>, rows: seq<Setting>, groups: seq<seq<nat>>, g: nat)
    requires g < |groups|
  {
    var k := |OutOfOrderBelow(rows, groups, g)|;
    k < |promotions| && IsPromotionOf(promotions[k], rows, groups[g])
  }

  lemma OfferedExactly(rows: seq<Setting>, group: seq<nat>)
    requires Within(rows, group) && !Throws(rows, group)
    ensures InOrder(rows, group) ==> Offered(rows, group) == []
    ensures !InOrder(rows, group) ==>
              |Offered(rows, group)| == 1 && IsPromotionOf(Offered(rows, group)[0], rows, group)
  {
    hide SortByBlock, FirstWith;
    ToSwapIsNewest(rows, group);
    var swap := ToSwap(rows, group);
    hide ToSwap, InOrder, IsSwap;
    if swap.Some? {
      assert TakesFrom(Offered(rows, group)[0], rows[swap.value.0], rows[swap.value.1]);
    }
  }

  lemma OutOfOrderNext(rows: seq<Setting>, groups: seq<seq<nat>>, g: nat)
    requires g < |groups|
    ensures |OutOfOrderBelow(rows, groups, g + 1)| ==
            |OutOfOrderBelow(rows, groups, g)| + if InOrder(rows, groups[g]) then 0 else 1
  {
    var before := OutOfOrderBelow(rows, groups, g);
    hide InOrder;
    assert OutOfOrderBelow(rows, groups, g + 1) == if InOrder(rows, groups[g]) then before else before + {g};
  }

  lemma PromotionsNext(rows: seq<Setting>, groups: seq<seq<nat>>, r: nat)
    requires AllWithin(rows, groups) && r < |groups|
    ensures AllWithin(rows, groups[..r]) && AllWithin(rows, groups[..r + 1])
    ensures PromotionsOf(rows, groups[..r + 1]) == PromotionsOf(rows, groups[..r]) + Offered(rows, groups[r])
  {
    assert groups[..r + 1][..r] == groups[..r];
    hide Offered;
  }

  lemma {:induction false} PromotionCount(rows: seq<Setting>, groups: seq<seq<nat>>, r: nat)
    requires AllWithin(rows, groups) && NoneThrows(rows, groups) && r <= |groups|
    ensures AllWithin(rows, groups[..r])
    ensures |PromotionsOf(rows, groups[..r])| == |OutOfOrderBelow(rows, groups, r)|
  {
    hide InOrder, IsPromotionOf, Offered, Throws;
    if r == 0 {
      assert OutOfOrderBelow(rows, groups, 0) == {};
    } else {
      OfferedExactly(rows, groups[r - 1]);
      hide *;
      PromotionsNext(rows, groups, r - 1);
      OutOfOrderNext(rows, groups, r - 1);
      PromotionCount(rows, groups, r - 1);
    }
  }

  lemma {:induction false} PromotionsGrow(rows: seq<Setting>, groups: seq<seq<nat>>, r: nat, s: nat)
    requires AllWithin(rows, groups) && r <= s <= |groups|
    ensures AllWithin(rows, groups[..r]) && AllWithin(rows, groups[..s])
    ensures PromotionsOf(rows, groups[..r]) <= PromotionsOf(rows, groups[..s])
  {
    hide AllWithin, Offered, PromotionsOf;
    if r < s {
      PromotionsGrow(rows, groups, r, s - 1);
      PromotionsNext(rows, groups, s - 1);
    } else if s < |groups| {
      PromotionsNext(rows, groups, s);
    } else {
      assert groups[..s] == groups;
    }
  }

  lemma PromotionAt(rows: seq<Setting>, groups: seq<seq<nat>>, g: nat)
    requires AllWithin(rows, groups) && NoneThrows(rows, groups) && g < |groups| && !InOrder(rows, groups[g])
    ensures HasItsPromotion(PromotionsOf(rows, groups), rows, groups, g)
  {
    OfferedExactly(rows, groups[g]);
    hide NoneThrows, Throws, InOrder, IsPromotionOf, Offered, PromotionsOf, OutOfOrderBelow;
    PromotionsNext(rows, groups, g);
    PromotionCount(rows, groups, g);
    PromotionsGrow(rows, groups, g + 1, |groups|);
    assert groups[..|groups|] == groups;
    hide AllWithin;
  }

  lemma PromotionsExactly(rows: seq<Setting>, groups: seq<seq<nat>>)
    requires AllWithin(rows, groups) && NoneThrows(rows, groups)
    ensures ArePromotions(PromotionsOf(rows, groups), rows, groups)
  {
    assert groups[..|groups|] == groups;
    hide InOrder, HasItsPromotion, PromotionsOf, OutOfOrderBelow;
    PromotionCount(rows, groups, |groups|);
    forall g | 0 <= g < |groups| && !InOrder(rows, groups[g])
      ensures HasItsPromotion(PromotionsOf(rows, groups), rows, groups, g)
    {
      PromotionAt(rows, groups, g);
    }
  }

  /** The proposals are given the stages the promoted setting ends with exactly when its promotion took effect or
      changed no name. */
  lemma ProposalsMatchSettingExactly(rows: seq<Setting>, group: seq<nat>, writes: Writes)
    requires Within(rows, group) && PromotionOf(rows, group).Some?
    ensures var promoted, after := ToSwap(rows, group).value.0, RepairGroup(rows, group, writes);
            && after.Some?
            && (after.value[promoted].stages == PromotionOf(rows, group).value.stages <==>
                  writes.promoted || rows[promoted].stages == PromotionOf(rows, group).value.stages)
  {
    ToSwapIsNewest(rows, group);
    SwapTouches(rows, ToSwap(rows, group).value.0, ToSwap(rows, group).value.1, writes);
  }

  /** Two plugins with an active setting at block 1, and an inactive one at block 2 of one transaction. */
  function TwoPlugins(p: Address, q: Address, terms: Terms): seq<Setting> {
    [Setting(p, true, 1, "a", Active, [Stage(Some("mine"), terms)]),
     Setting(p, true, 2, "t", Inactive, [Stage(None, terms)]),
     Setting(q, true, 1, "b", Active, [Stage(Some("theirs"), terms)]),
     Setting(q, true, 2, "t", Inactive, [Stage(None, terms)])]
  }

  function MineAndTheirs(p: Address, q: Address, terms: Terms): seq<Promotion> {
    [Promotion(p, "t", 2, [Stage(Some("mine"), terms)]), Promotion(q, "t", 2, [Stage(Some("theirs"), terms)])]
  }

  /** A run over them gives the first plugin's proposal the stage names of the second. */
  lemma OwnStagesPitfall(p: Address, q: Address, terms: Terms)
    requires p != q
    ensures var rows, groups: seq<seq<nat>> := TwoPlugins(p, q, terms), [[0, 1], [2, 3]];
            && Aggregates(rows, [p, q], groups) && AllWithin(rows, groups)
            && FixAll([Proposal(p, "t", 3, [])], PromotionsOf(rows, groups))
               == [Proposal(p, "t", 3, [Stage(Some("theirs"), terms)])]
  {
    TwoPluginsAggregate(p, q, terms);
    TwoPluginsOffer(p, q, terms);
    TwoGroupsOffer(TwoPlugins(p, q, terms), [0, 1], [2, 3]);
    LastOfTwoFixes(Proposal(p, "t", 3, []), MineAndTheirs(p, q, terms));
    hide TwoPlugins, Offered, PromotionsOf, FixAll, Aggregates;
  }

  lemma LastOfTwoFixes(proposal: Proposal, promotions: seq<Promotion>)
    requires |promotions| == 2 && IsFixedBy(proposal, promotions[1])
    ensures FixAll([proposal], promotions) == [proposal.(stages := promotions[1].stages)]
  {
    ProposalsGetLastFix([proposal], promotions);
    hide FixAll;
  }

  lemma TwoGroupsOffer(rows: seq<Setting>, g: seq<nat>, h: seq<nat>)
    requires AllWithin(rows, [g, h]) && Within(rows, g) && Within(rows, h)
    ensures PromotionsOf(rows, [g, h]) == Offered(rows, g) + Offered(rows, h)
  {
    var groups := [g, h];
    var first := groups[..1];
    assert |first| == 1 && first[0] == g && first[..0] == [];
    hide Offered;
    assert PromotionsOf(rows, first) == Offered(rows, g);
  }

  lemma PairIsOffered(rows: seq<Setting>, active: nat, inactive: nat)
    requires active < |rows| && inactive < |rows|
    requires rows[active].status.Active? && rows[inactive].status.Inactive?
    requires rows[active].blockNumber < rows[inactive].blockNumber
    requires |rows[inactive].stages| <= |rows[active].stages|
    ensures var p := rows[inactive];
            && Within(rows, [active, inactive])
            && Offered(rows, [active, inactive]) ==
               [Promotion(p.pluginAddress, p.transactionHash, p.blockNumber,
                          MergeNames(p.stages, rows[active].stages))]
  {
    PairIsSwapped(rows, active, inactive);
    hide ToSwap, MergeNames;
  }

  lemma TwoPluginsOffer(p: Address, q: Address, terms: Terms)
    ensures var rows, promotions := TwoPlugins(p, q, terms), MineAndTheirs(p, q, terms);
            && Within(rows, [0, 1]) && Within(rows, [2, 3])
            && Offered(rows, [0, 1]) + Offered(rows, [2, 3]) == promotions
  {
    var rows := TwoPlugins(p, q, terms);
    assert MergeNames(rows[1].stages, rows[0].stages) == [Stage(Some("mine"), terms)];
    assert MergeNames(rows[3].stages, rows[2].stages) == [Stage(Some("theirs"), terms)];
    hide Offered, MergeNames, Within;
    PairIsOffered(rows, 0, 1);
    PairIsOffered(rows, 2, 3);
  }

  lemma TwoPluginsAggregate(p: Address, q: Address, terms: Terms)
    requires p != q
    ensures var rows, groups: seq<seq<nat>> := TwoPlugins(p, q, terms), [[0, 1], [2, 3]];
            Aggregates(rows, [p, q], groups) && AllWithin(rows, groups)
  {
    var rows, groups: seq<seq<nat>> := TwoPlugins(p, q, terms), [[0, 1], [2, 3]];
    assert rows[0].pluginAddress == rows[1].pluginAddress == p && rows[2].pluginAddress == rows[3].pluginAddress == q;
    assert HasSeveral(rows, p) && HasSeveral(rows, q);
    assert IsGroup(rows, p, groups[0]) && IsGroup(rows, q, groups[1]);
  }

  lemma {:induction false} FixMore(proposals: seq<Proposal>, promotions: seq<Promotion>, more: seq<Promotion>)
    ensures FixAll(proposals, promotions + more) == FixAll(FixAll(proposals, promotions), more)
  {
    if more == [] {
      assert promotions + more == promotions;
    } else {
      var init := more[..|more| - 1];
      FixMore(proposals, promotions, init);
      assert (promotions + more)[..|promotions + more| - 1] == promotions + init;
    }
  }

  lemma OfferedIfSwapped(rows: seq<Setting>, group: seq<nat>)
    requires Within(rows, group)
    ensures Throws(rows, group) ==> Offered(rows, group) == []
  {
  }

  lemma RunPromotions(rows: seq<Setting>, groups: seq<seq<nat>>, writes: seq<Writes>, r: nat)
    requires |writes| == |groups| && AllWithin(rows, groups) && Disjoint(groups) && r <= |groups|
    requires AllWithin(rows, groups[..r]) && RepairAll(rows, groups[..r], writes[..r]).Some?
    ensures ArePromotions(PromotionsOf(rows, groups[..r]), rows, groups[..r])
  {
    assert Disjoint(groups[..r]);
    hide RepairAll, NoneThrows, PromotionsOf, ArePromotions;
    RunCompletesExactly(rows, groups[..r], writes[..r]);
    PromotionsExactly(rows, groups[..r]);
  }

  class SettingCollection {
    var rows: seq<Setting>
    var proposals: seq<Proposal>

    constructor (rows: seq<Setting>, proposals: seq<Proposal>)
      ensures this.rows == rows && this.proposals == proposals
    {
      this.rows, this.proposals := rows, proposals;
    }

    /** One plugin, decided and merged on the settings as the run read them at its start. */
    method FixGroup(found: seq<Setting>, group: seq<nat>, writes: Writes) returns (threw: bool)
      requires Within(found, group) && AgreeOn(found, rows, group)
      modifies this
      ensures threw <==> Throws(found, group)
      ensures rows == if threw then old(rows) else Swapped(found, old(rows), group, writes)
      ensures proposals == FixAll(old(proposals), Offered(found, group))
      ensures AreFixed(old(proposals), proposals, Offered(found, group))
      ensures !threw && !InOrder(found, group) ==>
                |Offered(found, group)| == 1 && IsPromotionOf(Offered(found, group)[0], found, group)
    {
      FixedExactly(proposals, Offered(found, group));
      if !Throws(found, group) {
        OfferedExactly(found, group);
      }
      hide AreFixed, InOrder, IsPromotionOf;
      hide SortByBlock, FirstWith, FixProposals;
      SwapIsInGroup(found, group);
      var swap := ToSwap(found, group);
      if swap.None? {
        return false;
      }
      var (inactive, active) := swap.value;
      if |found[inactive].stages| > |found[active].stages| {
        return true;
      }
      var stages := MergeNames(found[inactive].stages, found[active].stages);
      var promotion := Promotion(
        found[inactive].pluginAddress, found[inactive].transactionHash, found[inactive].blockNumber, stages);
      if writes.promoted {
        rows := rows[inactive := rows[inactive].(status := Active, stages := stages)];
      }
      if writes.demoted {
        rows := rows[active := rows[active].(status := Inactive)];
      }
      proposals := FixProposals(proposals, promotion);
      return false;
    }

    /** The whole run over the groups of the plugins, `writes` saying which updates take effect. It stops at the first
        plugin whose repair throws. */
    method FixSettings(plugins: seq<Address>, groups: seq<seq<nat>>, writes: seq<Writes>) returns (repaired: nat)
      requires Aggregates(rows, plugins, groups) && |writes| == |groups|
      modifies this
      ensures repaired <= |groups| && AllWithin(old(rows), groups)
      ensures RepairAll(old(rows), groups[..repaired], writes[..repaired]) == Some(rows)
      ensures repaired < |groups| ==> Throws(old(rows), groups[repaired])
      ensures repaired == |groups| && AllPromoted(writes) ==> NoneIsPassedOver(rows)
      ensures |rows| == |old(rows)| && forall n | 0 <= n < |rows| && !old(rows)[n].isSpp :: rows[n] == old(rows)[n]
      ensures proposals == FixAll(old(proposals), PromotionsOf(old(rows), groups[..repaired]))
      ensures var promotions := PromotionsOf(old(rows), groups[..repaired]);
              && ArePromotions(promotions, old(rows), groups[..repaired])
              && AreFixed(old(proposals), proposals, promotions)
    {
      var found := rows;
      GroupsAreDisjoint(found, plugins, groups);
      repaired := 0;
      while repaired < |groups|
        invariant repaired <= |groups|
        invariant RepairAll(found, groups[..repaired], writes[..repaired]) == Some(rows)
        invariant proposals == FixAll(old(proposals), PromotionsOf(found, groups[..repaired]))
      {
        hide *;
        RepairNext(found, rows, groups, writes, repaired);
        FixMore(old(proposals), PromotionsOf(found, groups[..repaired]), Offered(found, groups[repaired]));
        var threw := FixGroup(found, groups[repaired], writes[repaired]);
        if threw {
          OfferedIfSwapped(found, groups[repaired]);
          RunPromotions(found, groups, writes, repaired);
          FixedExactly(old(proposals), PromotionsOf(found, groups[..repaired]));
          forall n | 0 <= n < |rows| && !found[n].isSpp ensures rows[n] == found[n] {
            OthersStay(found, plugins, groups, writes, repaired, n);
          }
          return;
        }
        repaired := repaired + 1;
      }
      RunPromotions(found, groups, writes, repaired);
      FixedExactly(old(proposals), PromotionsOf(found, groups[..repaired]));
      forall n | 0 <= n < |rows| && !found[n].isSpp ensures rows[n] == found[n] {
        OthersStay(found, plugins, groups, writes, repaired, n);
      }
      hide ArePromotions, AreFixed, NoneIsPassedOver;
      assert groups[..repaired] == groups && writes[..repaired] == writes;
      if AllPromoted(writes) {
        RunOrdersEveryPlugin(found, plugins, groups, writes);
      }
    }
  }
}
