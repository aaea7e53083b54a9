/**
 * The browser extension's translation of the API's blocklist into
 * declarativeNetRequest dynamic rules: one blocking rule per entry, and the
 * ids of those same rules to remove before they are added again.
 */
module Rules {
  import opened Wrappers
  import opened Blocklist

  /** The resource types every blocking rule applies to. */
  const FrameTypes: seq<string> := ["main_frame", "sub_frame"]

  datatype RuleAction = RuleAction(kind: string)
  datatype RuleCondition = RuleCondition(urlFilter: string, resourceTypes: seq<string>)
  datatype Rule = Rule(id: int, priority: int, action: RuleAction, condition: RuleCondition)

  /** The argument of `updateDynamicRules`: rule ids to remove, then rules to add. */
  datatype RuleUpdate = RuleUpdate(removeRuleIds: seq<int>, addRules: seq<Rule>)

  /** The rule built for one entry: block top-level and framed loads matching its URL. */
  function RuleFor(e: Entry): Rule
  {
    Rule(e.id, 1, RuleAction("block"), RuleCondition(e.url, FrameTypes))
  }

  /** `blocklist.map(entry => ({ ... }))`: one rule per entry, in order. */
  function RulesFor(es: seq<Entry>): (rs: seq<Rule>)
    ensures |rs| == |es|
    ensures forall i :: 0 <= i < |es| ==> rs[i].id == es[i].id && rs[i].condition.urlFilter == es[i].url
    ensures forall r :: r in rs ==> r.priority == 1 && r.action.kind == "block"
                                    && r.condition.resourceTypes == ["main_frame", "sub_frame"]
  {
    if es == [] then [] else [RuleFor(es[0])] + RulesFor(es[1..])
  }

  /** `blocklist.map(entry => entry.id)`: the entries' ids, in order. */
  function IdsOf(es: seq<Entry>): (ids: seq<int>)
    ensures |ids| == |es|
    ensures forall i :: 0 <= i < |es| ==> ids[i] == es[i].id
  {
    if es == [] then [] else [es[0].id] + IdsOf(es[1..])
  }

  /**
   * The update built from the response's `blocklist` property, `None` when the
   * property is absent (or otherwise falsy) and so replaced by `[]`. Rule `i`
   * blocks entry `i`'s URL under entry `i`'s id, and every added rule id is
   * also removed first.
   */
  function UpdateFor(blocklist: Option<seq<Entry>>): (u: RuleUpdate)
    ensures blocklist.None? ==> u.removeRuleIds == [] && u.addRules == []
    ensures blocklist.Some? ==> |u.addRules| == |u.removeRuleIds| == |blocklist.value|
    ensures blocklist.Some? ==> forall i :: 0 <= i < |blocklist.value| ==>
              && u.addRules[i].id == blocklist.value[i].id
              && u.addRules[i].condition.urlFilter == blocklist.value[i].url
              && u.removeRuleIds[i] == blocklist.value[i].id
    ensures forall r :: r in u.addRules ==> r.priority == 1 && r.action.kind == "block"
                                            && r.condition.resourceTypes == ["main_frame", "sub_frame"]
    ensures forall r :: r in u.addRules ==> r.id in u.removeRuleIds
  {
    var es := if blocklist.Some? then blocklist.value else [];
    var u := RuleUpdate(IdsOf(es), RulesFor(es));
    assert forall i :: 0 <= i < |es| ==> u.addRules[i].id == u.removeRuleIds[i];
    u
  }

  /**
   * A JSON response body as the extension sees it: a top-level array of
   * entries, or an object that may carry the entries under `blocklist`.
   * GET /blocklist answers with the array form.
   */
  datatype Body = ArrayBody(items: seq<Entry>) | ObjectBody(blocklist: Option<seq<Entry>>)

  /** `data.blocklist` as JavaScript evaluates it: an array has no such property. */
  function BlocklistProperty(body: Body): Option<seq<Entry>>
  {
    match body
    case ArrayBody(_) => None
    case ObjectBody(b) => b
  }

  /** The update `updateRulesFromAPI` builds from a response body, as written. */
  function UpdateFromBodyAsWritten(body: Body): (u: RuleUpdate)
    ensures body.ArrayBody? ==> u == RuleUpdate([], [])
    ensures body.ObjectBody? ==> u == UpdateFor(body.blocklist)
  {
    UpdateFor(BlocklistProperty(body))
  }

  /**
   * As written, the extension installs no rule for the listing the API actually
   * sends, however many URLs the table holds.
   */
  lemma ListingInstallsNoRule(es: seq<Entry>)
    requires es != []
    ensures UpdateFromBodyAsWritten(ArrayBody(es)) == RuleUpdate([], [])
  {
  }

  /**
   * The entries a response body carries: the array itself, or the `blocklist`
   * property of an object. It differs from `data.blocklist` only on arrays.
   */
  function EntriesOf(body: Body): (r: Option<seq<Entry>>)
    ensures body.ArrayBody? ==> r == Some(body.items)
    ensures body.ObjectBody? ==> r == BlocklistProperty(body)
  {
    match body
    case ArrayBody(items) => Some(items)
    case ObjectBody(b) => b
  }

  /**
   * The update the extension evidently means to build: from the entries the
   * body carries. On an array body there is one rule per item, built from that
   * item; on an object body it is the update as written.
   */
  function UpdateFromBody(body: Body): (u: RuleUpdate)
    ensures body.ArrayBody? ==> |u.addRules| == |u.removeRuleIds| == |body.items|
    ensures body.ArrayBody? ==> forall i :: 0 <= i < |body.items| ==>
              && u.addRules[i].id == body.items[i].id
              && u.addRules[i].condition.urlFilter == body.items[i].url
              && u.removeRuleIds[i] == body.items[i].id
    ensures body.ObjectBody? ==> u == UpdateFromBodyAsWritten(body)
  {
    UpdateFor(EntriesOf(body))
  }

  /**
   * Read through `UpdateFromBody`, the listing of a well-formed table yields one
   * rule per stored entry, blocking exactly the stored URLs, with pairwise
   * distinct rule ids (the browser rejects an update that repeats a rule id).
   */
  lemma ListingBlocksStoredUrls(s: Store)
    requires s.Valid()
    ensures var u := UpdateFromBody(ArrayBody(s.List()));
            && |u.addRules| == |s.entries|
            && (forall e :: e in s.entries ==> exists r :: r in u.addRules && r.id == e.id && r.condition.urlFilter == e.url)
            && (forall r :: r in u.addRules ==> exists e :: e in s.entries && r.id == e.id && r.condition.urlFilter == e.url)
            && (forall i, j :: 0 <= i < j < |u.addRules| ==> u.addRules[i].id != u.addRules[j].id)
  {
  }
}
