/** The AWS action catalog of deployment_helpers/llm/aws/helpers.py: the map from
    each service's `StringPrefix` to the set of its action names, built from the
    `serviceMap` of the AWS policy generator's configuration script, and the
    membership test every extracted call is validated with. The download and the
    JSON parse are not modelled: the parsed `serviceMap` values are an input. */
module ActionCatalog {
  import opened Seqs
  import opened Dicts

  /** One value of `serviceMap`, reduced to the two fields the catalog reads. */
  datatype ServiceEntry = ServiceEntry(stringPrefix: string, actions: seq<string>)

  /** `AWS_SERVICES_MAP`: service prefix to the set of its action names. */
  type Catalog = Dict<set<string>>

  /** The JavaScript assignment in front of the JSON object in the downloaded script. */
  const ConfigAssignment: string := "app.PolicyEditorConfig="

  /** `text[23:]`: Python slicing, so a text of at most 23 characters gives "". */
  function StripConfigAssignment(text: string): (body: string)
    ensures |body| == if |text| <= 23 then 0 else |text| - 23
  {
    if |text| <= 23 then [] else text[23..]
  }

  /** The 23 characters dropped are exactly the assignment, so the JSON text
      (starting with its `{`) survives whole. */
  lemma StripConfigAssignmentRoundTrip(body: string)
    ensures StripConfigAssignment(ConfigAssignment + body) == body
  {
    assert |ConfigAssignment| == 23;
    assert (ConfigAssignment + body)[23..] == body;
  }

  function Prefixes(serviceMap: seq<ServiceEntry>): (prefixes: seq<string>)
    ensures |prefixes| == |serviceMap|
  {
    seq(|serviceMap|, i requires 0 <= i < |serviceMap| => serviceMap[i].stringPrefix)
  }

  /** `set(svc_item["Actions"])` */
  function ActionSet(entry: ServiceEntry): set<string> {
    set a | a in entry.actions
  }

  /** No later entry of `serviceMap` has the prefix of entry `i`. */
  ghost predicate IsLastWithPrefix(serviceMap: seq<ServiceEntry>, i: int)
    requires 0 <= i < |serviceMap|
  {
    forall j :: i < j < |serviceMap| ==> serviceMap[j].stringPrefix != serviceMap[i].stringPrefix
  }

  /** `catalog` is the map built from `serviceMap`: one key per distinct prefix,
      in the order of first occurrence, bound to the action set of the LAST entry
      with that prefix (a later entry overwrites an earlier one). */
  ghost predicate IsCatalogOf(serviceMap: seq<ServiceEntry>, catalog: Catalog) {
    && catalog.Valid()
    && catalog.keys == Dedup(Prefixes(serviceMap))
    && LastEntryWins(serviceMap, catalog.entries)
  }

  /** Each prefix is bound to the action set of the last entry that has it. */
  ghost predicate LastEntryWins(serviceMap: seq<ServiceEntry>, entries: map<string, set<string>>) {
    forall i :: 0 <= i < |serviceMap| && IsLastWithPrefix(serviceMap, i) ==>
      serviceMap[i].stringPrefix in entries &&
      entries[serviceMap[i].stringPrefix] == ActionSet(serviceMap[i])
  }

  lemma PrefixesSnoc(done: seq<ServiceEntry>, item: ServiceEntry)
    ensures Prefixes(done + [item]) == Prefixes(done) + [item.stringPrefix]
  {
  }

  lemma InPrefixes(serviceMap: seq<ServiceEntry>, n: string)
    ensures n in Prefixes(serviceMap) <==> exists i :: 0 <= i < |serviceMap| && serviceMap[i].stringPrefix == n
  {
    if n in Prefixes(serviceMap) {
      var i :| 0 <= i < |serviceMap| && Prefixes(serviceMap)[i] == n;
    }
    if exists i :: 0 <= i < |serviceMap| && serviceMap[i].stringPrefix == n {
      var i :| 0 <= i < |serviceMap| && serviceMap[i].stringPrefix == n;
      assert Prefixes(serviceMap)[i] == n;
    }
  }

  /** One iteration of the loop: storing the next entry keeps the built map the catalog of the entries seen. */
  lemma CatalogStep(done: seq<ServiceEntry>, item: ServiceEntry, services: Catalog)
    requires IsCatalogOf(done, services)
    ensures IsCatalogOf(done + [item], Set(services, item.stringPrefix, ActionSet(item)))
  {
    var next := done + [item];
    var updated := Set(services, item.stringPrefix, ActionSet(item));
    PrefixesSnoc(done, item);
    SetFollowsFirstOccurrence(services, Prefixes(done), item.stringPrefix, ActionSet(item));
    LastEntryWinsStep(done, item, services.entries);
  }

  lemma LastEntryWinsStep(done: seq<ServiceEntry>, item: ServiceEntry, entries: map<string, set<string>>)
    requires LastEntryWins(done, entries)
    ensures LastEntryWins(done + [item], entries[item.stringPrefix := ActionSet(item)])
  {
    var next := done + [item];
    var updated := entries[item.stringPrefix := ActionSet(item)];
    assert forall k :: 0 <= k < |done| ==> next[k] == done[k];
    forall j | 0 <= j < |next| && IsLastWithPrefix(next, j)
      ensures next[j].stringPrefix in updated
      ensures updated[next[j].stringPrefix] == ActionSet(next[j])
    {
      if j < |done| {
        assert next[|done|].stringPrefix != next[j].stringPrefix;
        assert IsLastWithPrefix(done, j);
      }
    }
  }

  lemma CatalogOfNothing()
    ensures IsCatalogOf([], Empty())
  {
    assert Prefixes([]) == [];
  }

  /** The loop of `_extract_all_iam_service_actions` after the JSON parse. */
  method ExtractServiceActions(serviceMap: seq<ServiceEntry>) returns (services: Catalog)
    ensures IsCatalogOf(serviceMap, services)
  {
    services := Empty();
    CatalogOfNothing();
    ghost var done: seq<ServiceEntry> := [];
    var i := 0;
    while i < |serviceMap|
      invariant 0 <= i <= |serviceMap|
      invariant done == serviceMap[..i]
      invariant IsCatalogOf(done, services)
    {
      var item := serviceMap[i];
      CatalogStep(done, item, services);
      services := Set(services, item.stringPrefix, ActionSet(item));
      done := done + [item];
      i := i + 1;
    }
    assert done == serviceMap;
  }

  /** `AWS_SERVICE_NAMES = [el for el in AWS_SERVICES_MAP]`: the keys in dict order. */
  function ServiceNames(catalog: Catalog): (names: seq<string>)
    requires catalog.Valid()
    ensures Distinct(names)
    ensures forall n :: n in names <==> n in catalog.entries
  {
    catalog.keys
  }

  /** The service names are the distinct `StringPrefix` values, in first-occurrence order. */
  lemma ServiceNamesArePrefixes(serviceMap: seq<ServiceEntry>, catalog: Catalog)
    requires IsCatalogOf(serviceMap, catalog)
    ensures ServiceNames(catalog) == Dedup(Prefixes(serviceMap))
    ensures forall n :: n in ServiceNames(catalog) <==> exists i :: 0 <= i < |serviceMap| && serviceMap[i].stringPrefix == n
  {
    forall n ensures n in ServiceNames(catalog) <==> exists i :: 0 <= i < |serviceMap| && serviceMap[i].stringPrefix == n {
      InPrefixes(serviceMap, n);
    }
  }

  /** `action in AWS_SERVICES_MAP.get(service, [])`; the `except` branch is never
      taken, so an unknown service gives false rather than an exception. */
  predicate IsValidServiceAction(catalog: Catalog, service: string, action: string) {
    action in Get(catalog, service, {})
  }

  /** Membership iff catalog entry: valid exactly when the service is a key and the
      action is in its set; an unknown service is never valid. */
  lemma ValidIffCatalogEntry(catalog: Catalog, service: string, action: string)
    ensures IsValidServiceAction(catalog, service, action) <==>
              service in catalog.entries && action in catalog.entries[service]
    ensures service !in catalog.entries ==> !IsValidServiceAction(catalog, service, action)
  {
  }

  /** From entry `i`, some entry at or after it is the last one with the same prefix. */
  lemma {:induction false} LastWithPrefixExists(serviceMap: seq<ServiceEntry>, i: int)
    requires 0 <= i < |serviceMap|
    ensures exists j :: i <= j < |serviceMap| && serviceMap[j].stringPrefix == serviceMap[i].stringPrefix
                        && IsLastWithPrefix(serviceMap, j)
    decreases |serviceMap| - i
  {
    if !IsLastWithPrefix(serviceMap, i) {
      var k :| i < k < |serviceMap| && serviceMap[k].stringPrefix == serviceMap[i].stringPrefix;
      LastWithPrefixExists(serviceMap, k);
    }
  }

  /** Validity read back on `serviceMap`: a pair is valid exactly when the last
      entry with that service prefix lists the action. */
  lemma ValidIffLastEntryLists(serviceMap: seq<ServiceEntry>, catalog: Catalog, service: string, action: string)
    requires IsCatalogOf(serviceMap, catalog)
    ensures IsValidServiceAction(catalog, service, action) <==>
              exists i :: 0 <= i < |serviceMap| && IsLastWithPrefix(serviceMap, i)
                          && serviceMap[i].stringPrefix == service && action in serviceMap[i].actions
  {
    if IsValidServiceAction(catalog, service, action) {
      InPrefixes(serviceMap, service);
      var k :| 0 <= k < |serviceMap| && serviceMap[k].stringPrefix == service;
      LastWithPrefixExists(serviceMap, k);
      var j :| k <= j < |serviceMap| && serviceMap[j].stringPrefix == service && IsLastWithPrefix(serviceMap, j);
      assert action in ActionSet(serviceMap[j]);
    }
  }
}
