/** The logical-ID classifier of disco-up/arc-name-mapper.mjs: a deployment
    logical ID is matched against seven fixed, case-sensitive suffixes in a
    fixed order, giving a pragma (the section of the resource map) and an
    arc name (the key inside that section). HTTP IDs additionally have their
    route rewritten into Architect's "method /path" form. */
module ArcNameMapper {
  import opened Wrappers
  import opened Text

  /** The seven sections of the resource map (the source's `pragmaType`). */
  datatype Pragma = Http | Events | Tables | Queues | Ws | Scheduled | Plugins

  /** The key under which a section is stored in the JSON document. */
  function PragmaName(p: Pragma): string {
    match p
    case Http => "http"
    case Events => "events"
    case Tables => "tables"
    case Queues => "queues"
    case Ws => "ws"
    case Scheduled => "scheduled"
    case Plugins => "plugins"
  }

  /** Different sections are stored under different keys. */
  lemma PragmaNamesDistinct(p: Pragma, q: Pragma)
    requires PragmaName(p) == PragmaName(q)
    ensures p == q
  {
  }

  datatype Classification = Classification(arcName: string, pragma: Pragma)

  // ---------------------------------------------------------------------------
  // HTTP route rewriting (convertHttpRoute)
  // ---------------------------------------------------------------------------

  /** The alternation of the method regular expression, in its order. */
  const Methods: seq<string> := ["Get", "Post", "Put", "Patch", "Delete", "Head", "Options"]

  function MatchMethodFrom(ms: seq<string>, s: string): (r: Option<string>)
    ensures r.Some? ==> r.value in ms && StartsWith(s, r.value)
    ensures r.None? ==> forall m :: m in ms ==> !StartsWith(s, m)
  {
    if ms == [] then None
    else if StartsWith(s, ms[0]) then Some(ms[0])
    else MatchMethodFrom(ms[1..], s)
  }

  /** The leading method token of a route part, as the anchored regular
      expression `^(Get|Post|Put|Patch|Delete|Head|Options)` finds it. */
  function MatchMethod(routePart: string): (r: Option<string>)
    ensures r.Some? ==> r.value in Methods && StartsWith(routePart, r.value)
    ensures r.None? ==> forall m :: m in Methods ==> !StartsWith(routePart, m)
  {
    MatchMethodFrom(Methods, routePart)
  }

  /** `replace(/([A-Z])/g, '/$1')`: a slash before every ASCII capital. */
  function SlashBeforeCapitals(s: string): string {
    if s == [] then []
    else (if IsUpper(s[0]) then ['/', s[0]] else [s[0]]) + SlashBeforeCapitals(s[1..])
  }

  /** `replace(/^\//, '')`: at most one leading slash removed. */
  function DropLeadingSlash(s: string): string {
    if |s| > 0 && s[0] == '/' then s[1..] else s
  }

  /** The path of a route whose path part is neither empty nor `Index`. */
  function RoutePath(pathPart: string): (path: string)
    ensures NoUpper(path)
  {
    DropLeadingSlash(Lower(SlashBeforeCapitals(pathPart)))
  }

  /** convertHttpRoute: the route part is what is left of an HTTP logical ID
      once `HTTPLambda` is stripped. */
  function ConvertHttpRoute(routePart: string): (name: string)
    ensures NoUpper(name)
  {
    match MatchMethod(routePart)
    case None => Lower(routePart)
    case Some(m) =>
      var verb := Lower(m);
      var pathPart := routePart[|m|..];
      NoUpperAppend(verb, " /");
      if pathPart == "Index" || pathPart == "" then
        verb + " /"
      else
        NoUpperAppend(verb + " /", RoutePath(pathPart));
        verb + " /" + RoutePath(pathPart)
  }

  // ---------------------------------------------------------------------------
  // The classifier (deriveArcNameAndPragma)
  // ---------------------------------------------------------------------------

  /** deriveArcNameAndPragma. Recognised IDs get a name without capitals;
      anything else goes to `plugins` under its own ID, casing kept. */
  function DeriveArcNameAndPragma(logicalId: string): (c: Classification)
    ensures c.pragma == Plugins ==> c.arcName == logicalId
    ensures c.pragma != Plugins ==> NoUpper(c.arcName)
  {
    var n := |logicalId|;
    if EndsWith(logicalId, "EventLambda") then
      Classification(Lower(logicalId[..n - 11]), Events)
    else if EndsWith(logicalId, "Topic") then
      Classification(Lower(logicalId[..n - 5]), Events)
    else if EndsWith(logicalId, "HTTPLambda") then
      Classification(ConvertHttpRoute(logicalId[..n - 10]), Http)
    else if EndsWith(logicalId, "Table") then
      Classification(Lower(logicalId[..n - 5]), Tables)
    else if EndsWith(logicalId, "Queue") then
      Classification(Lower(logicalId[..n - 5]), Queues)
    else if EndsWith(logicalId, "Websocket") then
      Classification(Lower(logicalId[..n - 9]), Ws)
    else if EndsWith(logicalId, "Scheduled") then
      Classification(Lower(logicalId[..n - 9]), Scheduled)
    else
      Classification(logicalId, Plugins)
  }

  // ---------------------------------------------------------------------------
  // An order-free reference: the suffix conventions as a table
  // ---------------------------------------------------------------------------

  datatype Rule = Rule(suffix: string, pragma: Pragma)

  /** The suffix conventions, listed in the order the classifier tries them. */
  const Rules: seq<Rule> := [
    Rule("EventLambda", Events),
    Rule("Topic", Events),
    Rule("HTTPLambda", Http),
    Rule("Table", Tables),
    Rule("Queue", Queues),
    Rule("Websocket", Ws),
    Rule("Scheduled", Scheduled)
  ]

  /** What a convention makes of the ID with its suffix stripped. */
  function ApplyRule(rule: Rule, stem: string): Classification {
    Classification(if rule.pragma == Http then ConvertHttpRoute(stem) else Lower(stem), rule.pragma)
  }

  predicate HasKnownSuffix(id: string) {
    exists i :: 0 <= i < |Rules| && EndsWith(id, Rules[i].suffix)
  }

  lemma EndsWithAligned(s: string, a: string, b: string, k: nat)
    requires EndsWith(s, a) && EndsWith(s, b)
    requires k < |a| && k < |b|
    ensures a[|a| - 1 - k] == b[|b| - 1 - k]
  {
    assert a[|a| - 1 - k] == s[|s| - 1 - k];
    assert b[|b| - 1 - k] == s[|s| - 1 - k];
  }

  /** No string ends with two different conventions' suffixes, so at most one
      convention applies to any ID. */
  lemma SuffixesDisjoint(s: string, i: nat, j: nat)
    requires i < |Rules| && j < |Rules|
    requires EndsWith(s, Rules[i].suffix) && EndsWith(s, Rules[j].suffix)
    ensures i == j
  {
    RuleEnding(i);
    RuleEnding(j);
    var a, b := Rules[i].suffix, Rules[j].suffix;
    EndsWithAligned(s, a, b, 0);
    EndsWithAligned(s, a, b, 1);
    if 6 < |a| && 6 < |b| {
      EndsWithAligned(s, a, b, 6);
    }
    EndingDistinct(i, j);
  }

  /** The last character, the one before it, and the seventh from the end
      (a blank when the suffix is shorter) of each convention's suffix. These
      three positions tell the seven suffixes apart: only `EventLambda` and
      `HTTPLambda` share their last two characters, and both are long enough
      to differ at the seventh from the end (`t` against `P`). */
  function Ending(i: nat): (char, char, char)
    requires i < |Rules|
  {
    match i
    case 0 => ('a', 'd', 't')
    case 1 => ('c', 'i', ' ')
    case 2 => ('a', 'd', 'P')
    case 3 => ('e', 'l', ' ')
    case 4 => ('e', 'u', ' ')
    case 5 => ('t', 'e', 'b')
    case _ => ('d', 'e', 'h')
  }

  lemma RuleEnding(i: nat)
    requires i < |Rules|
    ensures var a := Rules[i].suffix;
      |a| >= 5 && Ending(i) == (a[|a| - 1], a[|a| - 2], if |a| > 6 then a[|a| - 7] else ' ')
  {
    if i == 0 {
      assert Rules[i].suffix == "EventLambda";
    } else if i == 1 {
      assert Rules[i].suffix == "Topic";
    } else if i == 2 {
      assert Rules[i].suffix == "HTTPLambda";
    } else if i == 3 {
      assert Rules[i].suffix == "Table";
    } else if i == 4 {
      assert Rules[i].suffix == "Queue";
    } else if i == 5 {
      assert Rules[i].suffix == "Websocket";
    } else {
      assert Rules[i].suffix == "Scheduled";
    }
  }

  lemma EndingDistinct(i: nat, j: nat)
    requires i < |Rules| && j < |Rules|
    requires Ending(i).0 == Ending(j).0 && Ending(i).1 == Ending(j).1
    requires Ending(i).2 != ' ' && Ending(j).2 != ' ' ==> Ending(i).2 == Ending(j).2
    ensures i == j
  {
  }

  /** Whichever convention an ID matches decides its classification: the
      order of the checks in the classifier does not matter. */
  lemma ClassifyByRule(id: string, i: nat)
    requires i < |Rules| && EndsWith(id, Rules[i].suffix)
    ensures DeriveArcNameAndPragma(id) == ApplyRule(Rules[i], id[..|id| - |Rules[i].suffix|])
  {
    if i < 3 {
      ClassifyByEarlyRule(id, i);
    } else {
      ClassifyByLateRule(id, i);
    }
  }

  lemma ClassifyByEarlyRule(id: string, i: nat)
    requires i < 3 && EndsWith(id, Rules[i].suffix)
    ensures DeriveArcNameAndPragma(id) == ApplyRule(Rules[i], id[..|id| - |Rules[i].suffix|])
  {
    var n := |id|;
    if i == 0 {
      assert Rules[0] == Rule("EventLambda", Events);
      ClassifyEventLambda(id);
      assert ApplyRule(Rules[0], id[..n - 11]) == Classification(Lower(id[..n - 11]), Events);
    } else if i == 1 {
      assert Rules[1] == Rule("Topic", Events);
      ClassifyTopic(id);
      assert ApplyRule(Rules[1], id[..n - 5]) == Classification(Lower(id[..n - 5]), Events);
    } else {
      assert Rules[2] == Rule("HTTPLambda", Http);
      ClassifyHttpLambda(id);
      assert ApplyRule(Rules[2], id[..n - 10]) == Classification(ConvertHttpRoute(id[..n - 10]), Http);
    }
  }

  lemma ClassifyByLateRule(id: string, i: nat)
    requires 3 <= i < |Rules| && EndsWith(id, Rules[i].suffix)
    ensures DeriveArcNameAndPragma(id) == ApplyRule(Rules[i], id[..|id| - |Rules[i].suffix|])
  {
    var n := |id|;
    if i == 3 {
      assert Rules[3] == Rule("Table", Tables);
      ClassifyTable(id);
      assert ApplyRule(Rules[3], id[..n - 5]) == Classification(Lower(id[..n - 5]), Tables);
    } else if i == 4 {
      assert Rules[4] == Rule("Queue", Queues);
      ClassifyQueue(id);
      assert ApplyRule(Rules[4], id[..n - 5]) == Classification(Lower(id[..n - 5]), Queues);
    } else if i == 5 {
      assert Rules[5] == Rule("Websocket", Ws);
      ClassifyWebsocket(id);
      assert ApplyRule(Rules[5], id[..n - 9]) == Classification(Lower(id[..n - 9]), Ws);
    } else {
      assert Rules[6] == Rule("Scheduled", Scheduled);
      ClassifyScheduled(id);
      assert ApplyRule(Rules[6], id[..n - 9]) == Classification(Lower(id[..n - 9]), Scheduled);
    }
  }

  /** One lemma per branch of the classifier: an ID ending in a suffix takes
      that branch, because it ends in none of the suffixes checked earlier. */
  lemma ClassifyEventLambda(id: string)
    requires EndsWith(id, "EventLambda")
    ensures DeriveArcNameAndPragma(id) == Classification(Lower(id[..|id| - 11]), Events)
  {
  }

  /** An ID ending in the suffix of rule `i` ends in no other rule's suffix. */
  lemma Excludes(id: string, i: nat, j: nat, other: string)
    requires i < |Rules| && j < |Rules| && i != j
    requires EndsWith(id, Rules[i].suffix) && Rules[j].suffix == other
    ensures !EndsWith(id, other)
  {
    if EndsWith(id, other) {
      SuffixesDisjoint(id, i, j);
    }
  }

  lemma ClassifyTopic(id: string)
    requires EndsWith(id, "Topic")
    ensures DeriveArcNameAndPragma(id) == Classification(Lower(id[..|id| - 5]), Events)
  {
    TopicMissesEarlierRules(id);
  }

  lemma TopicMissesEarlierRules(id: string)
    requires EndsWith(id, "Topic")
    ensures !EndsWith(id, "EventLambda")
  {
    assert Rules[1].suffix == "Topic";
    Excludes(id, 1, 0, "EventLambda");
  }

  lemma ClassifyHttpLambda(id: string)
    requires EndsWith(id, "HTTPLambda")
    ensures DeriveArcNameAndPragma(id) == Classification(ConvertHttpRoute(id[..|id| - 10]), Http)
  {
    HttpLambdaMissesEarlierRules(id);
  }

  lemma HttpLambdaMissesEarlierRules(id: string)
    requires EndsWith(id, "HTTPLambda")
    ensures !EndsWith(id, "EventLambda") && !EndsWith(id, "Topic")
  {
    assert Rules[2].suffix == "HTTPLambda";
    Excludes(id, 2, 0, "EventLambda");
    Excludes(id, 2, 1, "Topic");
  }

  lemma ClassifyTable(id: string)
    requires EndsWith(id, "Table")
    ensures DeriveArcNameAndPragma(id) == Classification(Lower(id[..|id| - 5]), Tables)
  {
    TableMissesEarlierRules(id);
  }

  lemma TableMissesEarlierRules(id: string)
    requires EndsWith(id, "Table")
    ensures !EndsWith(id, "EventLambda") && !EndsWith(id, "Topic") && !EndsWith(id, "HTTPLambda")
  {
    assert Rules[3].suffix == "Table";
    Excludes(id, 3, 0, "EventLambda");
    Excludes(id, 3, 1, "Topic");
    Excludes(id, 3, 2, "HTTPLambda");
  }

  lemma ClassifyQueue(id: string)
    requires EndsWith(id, "Queue")
    ensures DeriveArcNameAndPragma(id) == Classification(Lower(id[..|id| - 5]), Queues)
  {
    QueueMissesEarlierRules(id);
  }

  lemma QueueMissesEarlierRules(id: string)
    requires EndsWith(id, "Queue")
    ensures !EndsWith(id, "EventLambda") && !EndsWith(id, "Topic") && !EndsWith(id, "HTTPLambda") && !EndsWith(id, "Table")
  {
    assert Rules[4].suffix == "Queue";
    Excludes(id, 4, 0, "EventLambda");
    Excludes(id, 4, 1, "Topic");
    Excludes(id, 4, 2, "HTTPLambda");
    Excludes(id, 4, 3, "Table");
  }

  lemma ClassifyWebsocket(id: string)
    requires EndsWith(id, "Websocket")
    ensures DeriveArcNameAndPragma(id) == Classification(Lower(id[..|id| - 9]), Ws)
  {
    WebsocketMissesEarlierRules(id);
  }

  lemma WebsocketMissesEarlierRules(id: string)
    requires EndsWith(id, "Websocket")
    ensures !EndsWith(id, "EventLambda") && !EndsWith(id, "Topic") && !EndsWith(id, "HTTPLambda") && !EndsWith(id, "Table") && !EndsWith(id, "Queue")
  {
    assert Rules[5].suffix == "Websocket";
    Excludes(id, 5, 0, "EventLambda");
    Excludes(id, 5, 1, "Topic");
    Excludes(id, 5, 2, "HTTPLambda");
    Excludes(id, 5, 3, "Table");
    Excludes(id, 5, 4, "Queue");
  }

  lemma ClassifyScheduled(id: string)
    requires EndsWith(id, "Scheduled")
    ensures DeriveArcNameAndPragma(id) == Classification(Lower(id[..|id| - 9]), Scheduled)
  {
    ScheduledMissesEarlierRules(id);
  }

  lemma ScheduledMissesEarlierRules(id: string)
    requires EndsWith(id, "Scheduled")
    ensures !EndsWith(id, "EventLambda") && !EndsWith(id, "Topic") && !EndsWith(id, "HTTPLambda") && !EndsWith(id, "Table") && !EndsWith(id, "Queue") && !EndsWith(id, "Websocket")
  {
    ScheduledMissesEventAndHttpRules(id);
    ScheduledMissesStoreRules(id);
  }

  lemma ScheduledMissesEventAndHttpRules(id: string)
    requires EndsWith(id, "Scheduled")
    ensures !EndsWith(id, "EventLambda") && !EndsWith(id, "Topic") && !EndsWith(id, "HTTPLambda")
  {
    assert Rules[6].suffix == "Scheduled";
    Excludes(id, 6, 0, "EventLambda");
    Excludes(id, 6, 1, "Topic");
    Excludes(id, 6, 2, "HTTPLambda");
  }

  lemma ScheduledMissesStoreRules(id: string)
    requires EndsWith(id, "Scheduled")
    ensures !EndsWith(id, "Table") && !EndsWith(id, "Queue") && !EndsWith(id, "Websocket")
  {
    assert Rules[6].suffix == "Scheduled";
    Excludes(id, 6, 3, "Table");
    Excludes(id, 6, 4, "Queue");
    Excludes(id, 6, 5, "Websocket");
  }

  /** An ID goes to `plugins`, under its own ID, exactly when it matches none
      of the conventions. */
  lemma ClassifyFallback(id: string)
    ensures DeriveArcNameAndPragma(id).pragma == Plugins <==> !HasKnownSuffix(id)
    ensures !HasKnownSuffix(id) ==> DeriveArcNameAndPragma(id) == Classification(id, Plugins)
  {
    if HasKnownSuffix(id) {
      var i :| 0 <= i < |Rules| && EndsWith(id, Rules[i].suffix);
      ClassifyByRule(id, i);
      RuleNotPlugins(i);
    } else {
      NoRuleMatches(id);
    }
  }

  lemma RuleNotPlugins(i: nat)
    requires i < |Rules|
    ensures Rules[i].pragma != Plugins
  {
  }

  lemma NoRuleMatches(id: string)
    requires forall i :: 0 <= i < |Rules| ==> !EndsWith(id, Rules[i].suffix)
    ensures DeriveArcNameAndPragma(id) == Classification(id, Plugins)
  {
    assert !EndsWith(id, "EventLambda") by { assert Rules[0].suffix == "EventLambda"; }
    assert !EndsWith(id, "Topic") by { assert Rules[1].suffix == "Topic"; }
    assert !EndsWith(id, "HTTPLambda") by { assert Rules[2].suffix == "HTTPLambda"; }
    assert !EndsWith(id, "Table") by { assert Rules[3].suffix == "Table"; }
    assert !EndsWith(id, "Queue") by { assert Rules[4].suffix == "Queue"; }
    assert !EndsWith(id, "Websocket") by { assert Rules[5].suffix == "Websocket"; }
    assert !EndsWith(id, "Scheduled") by { assert Rules[6].suffix == "Scheduled"; }
  }

  /** `<stem><suffix>` is classified by that suffix's convention applied to the stem. */
  lemma ClassifySuffix(stem: string, i: nat)
    requires i < |Rules|
    ensures DeriveArcNameAndPragma(stem + Rules[i].suffix) == ApplyRule(Rules[i], stem)
  {
    var id := stem + Rules[i].suffix;
    assert id[|id| - |Rules[i].suffix|..] == Rules[i].suffix;
    assert id[..|id| - |Rules[i].suffix|] == stem;
    ClassifyByRule(id, i);
  }

  // ---------------------------------------------------------------------------
  // HTTP IDs
  // ---------------------------------------------------------------------------

  /** No method token is a prefix of another, so the alternation order of the
      method regular expression does not matter either. */
  lemma MethodPrefixUnique(s: string, m1: string, m2: string)
    requires m1 in Methods && m2 in Methods
    requires StartsWith(s, m1) && StartsWith(s, m2)
    ensures m1 == m2
  {
    assert m1[0] == s[0] == m2[0];
    assert m1[1] == s[1] == m2[1];
  }

  lemma MatchMethodOf(m: string, rest: string)
    requires m in Methods
    ensures MatchMethod(m + rest) == Some(m)
  {
    assert (m + rest)[..|m|] == m;
    var r := MatchMethod(m + rest);
    MethodPrefixUnique(m + rest, r.value, m);
  }

  /** An ID ending in `HTTPLambda` is an HTTP route named by its route part. */
  lemma ClassifyHttp(routePart: string)
    ensures DeriveArcNameAndPragma(routePart + "HTTPLambda")
         == Classification(ConvertHttpRoute(routePart), Http)
  {
    assert Rules[2].suffix == "HTTPLambda";
    ClassifySuffix(routePart, 2);
  }

  /** The root route: a method followed by nothing or exactly `Index`. */
  lemma HttpRoot(m: string, rest: string)
    requires m in Methods
    requires rest == "" || rest == "Index"
    ensures DeriveArcNameAndPragma(m + rest + "HTTPLambda") == Classification(Lower(m) + " /", Http)
  {
    ClassifyHttp(m + rest);
    MatchMethodOf(m, rest);
    assert (m + rest)[|m|..] == rest;
  }

  /** Any other path part becomes the path with a slash before every capital,
      lower-cased, and one leading slash dropped. */
  lemma HttpPath(m: string, rest: string)
    requires m in Methods
    requires rest != "" && rest != "Index"
    ensures DeriveArcNameAndPragma(m + rest + "HTTPLambda")
         == Classification(Lower(m) + " /" + RoutePath(rest), Http)
  {
    ClassifyHttp(m + rest);
    MatchMethodOf(m, rest);
    assert (m + rest)[|m|..] == rest;
  }

  /** Without a method token the whole route part is lower-cased, and the
      section is still `http`. */
  lemma HttpWithoutMethod(routePart: string)
    requires forall m :: m in Methods ==> !StartsWith(routePart, m)
    ensures DeriveArcNameAndPragma(routePart + "HTTPLambda") == Classification(Lower(routePart), Http)
  {
    ClassifyHttp(routePart);
  }

  lemma {:induction false} SlashBeforeCapitalsAppend(a: string, b: string)
    ensures SlashBeforeCapitals(a + b) == SlashBeforeCapitals(a) + SlashBeforeCapitals(b)
  {
    if a == [] {
      assert a + b == b;
    } else {
      assert (a + b)[1..] == a[1..] + b;
      SlashBeforeCapitalsAppend(a[1..], b);
    }
  }

  lemma {:induction false} SlashBeforeCapitalsCount(s: string)
    ensures Count(SlashBeforeCapitals(s), '/') == Count(s, '/') + UpperCount(s)
  {
    if s != [] {
      var head := if IsUpper(s[0]) then ['/', s[0]] else [s[0]];
      CountAppend(head, SlashBeforeCapitals(s[1..]), '/');
      SlashBeforeCapitalsCount(s[1..]);
    }
  }

  lemma {:induction false} SlashBeforeCapitalsLetters(s: string)
    ensures RemoveAll(SlashBeforeCapitals(s), '/') == RemoveAll(s, '/')
  {
    if s != [] {
      var head := if IsUpper(s[0]) then ['/', s[0]] else [s[0]];
      RemoveAllAppend(head, SlashBeforeCapitals(s[1..]), '/');
      SlashBeforeCapitalsLetters(s[1..]);
      if IsUpper(s[0]) {
        assert RemoveAll(head, '/') == [s[0]] by {
          assert head[1..] == [s[0]];
        }
      }
    }
  }

  /** The route path keeps the path part's characters apart from slashes,
      lower-cased and in order: the rewrite only adds slashes and lower-cases. */
  lemma RoutePathLetters(pathPart: string)
    ensures RemoveAll(RoutePath(pathPart), '/') == Lower(RemoveAll(pathPart, '/'))
  {
    var l := Lower(SlashBeforeCapitals(pathPart));
    RemoveAllLower(SlashBeforeCapitals(pathPart), '/');
    SlashBeforeCapitalsLetters(pathPart);
    if |l| > 0 && l[0] == '/' {
      assert RemoveAll(l, '/') == RemoveAll(l[1..], '/');
    }
  }

  /** When the path part starts with a capital, the route path has one slash
      fewer than the path part has capitals and slashes together. */
  lemma RoutePathSlashes(pathPart: string)
    requires pathPart != [] && IsUpper(pathPart[0])
    ensures Count(RoutePath(pathPart), '/') + 1 == UpperCount(pathPart) + Count(pathPart, '/')
  {
    var l := Lower(SlashBeforeCapitals(pathPart));
    CountLower(SlashBeforeCapitals(pathPart), '/');
    SlashBeforeCapitalsCount(pathPart);
    assert l[0] == '/';
  }

  /** So the whole HTTP name has as many slashes as the path part has
      capitals (plus any slashes it already held). */
  lemma HttpPathSlashes(m: string, rest: string)
    requires m in Methods
    requires rest != "Index" && rest != [] && IsUpper(rest[0])
    ensures Count(DeriveArcNameAndPragma(m + rest + "HTTPLambda").arcName, '/')
         == UpperCount(rest) + Count(rest, '/')
  {
    HttpPath(m, rest);
    RoutePathSlashes(rest);
    var verb := Lower(m);
    assert Count(verb, '/') == 0 by {
      MethodHasNoSlash(m);
      CountAbsent(m, '/');
      CountLower(m, '/');
    }
    assert Count(" /", '/') == 1 by {
      assert " /"[1..] == "/";
      assert "/"[1..] == "";
    }
    CountAppend(verb, " /", '/');
    CountAppend(verb + " /", RoutePath(rest), '/');
  }

  lemma MethodHasNoSlash(m: string)
    requires m in Methods
    ensures '/' !in m
  {
    if m == "Get" {
    } else if m == "Post" {
    } else if m == "Put" {
    } else if m == "Patch" {
    } else if m == "Delete" {
    } else if m == "Head" {
    } else {
      assert m == "Options";
    }
  }

  lemma {:induction false} CountAbsent(s: string, c: char)
    requires c !in s
    ensures Count(s, c) == 0
  {
    if s != [] {
      CountAbsent(s[1..], c);
    }
  }

  // ---------------------------------------------------------------------------
  // A word-level reference for the route path
  // ---------------------------------------------------------------------------

  /** The first index at or after `i` holding a capital, or the length. */
  function NextCapital(p: string, i: nat): (k: nat)
    requires i <= |p|
    ensures i <= k <= |p|
    ensures forall j :: i <= j < k ==> !IsUpper(p[j])
    ensures k < |p| ==> IsUpper(p[k])
    decreases |p| - i
  {
    if i == |p| || IsUpper(p[i]) then i else NextCapital(p, i + 1)
  }

  function Flatten(ws: seq<string>): string {
    if ws == [] then [] else ws[0] + Flatten(ws[1..])
  }

  /** The words of a path part: a new word begins at every capital. */
  function Segments(p: string): seq<string>
    decreases |p|
  {
    if p == [] then []
    else
      var k := NextCapital(p, 1);
      [p[..k]] + Segments(p[k..])
  }

  /** The words are non-empty and concatenate back to the path part; every
      word after the first starts with a capital, and no word has a capital
      after its first character. */
  lemma SegmentsAreWords(p: string)
    ensures Flatten(Segments(p)) == p
    ensures forall i :: 0 <= i < |Segments(p)| ==> Segments(p)[i] != [] && NoUpper(Segments(p)[i][1..])
    ensures forall i :: 0 < i < |Segments(p)| ==> Segments(p)[i] != [] && IsUpper(Segments(p)[i][0])
  {
    SegmentsFlatten(p);
    SegmentsNoInnerCapital(p);
    SegmentsStartWithCapital(p);
  }

  lemma {:induction false} SegmentsFlatten(p: string)
    ensures Flatten(Segments(p)) == p
    decreases |p|
  {
    if p != [] {
      var k := NextCapital(p, 1);
      var rest := Segments(p[k..]);
      SegmentsFlatten(p[k..]);
      assert Segments(p) == [p[..k]] + rest;
      assert ([p[..k]] + rest)[1..] == rest;
      assert Flatten(Segments(p)) == p[..k] + Flatten(rest);
      assert p[..k] + p[k..] == p;
    }
  }

  lemma {:induction false} SegmentsNoInnerCapital(p: string)
    ensures forall i :: 0 <= i < |Segments(p)| ==> Segments(p)[i] != [] && NoUpper(Segments(p)[i][1..])
    decreases |p|
  {
    if p != [] {
      var k := NextCapital(p, 1);
      var ws, rest := Segments(p), Segments(p[k..]);
      assert ws == [p[..k]] + rest;
      FirstWordHasNoInnerCapital(p);
      SegmentsNoInnerCapital(p[k..]);
      forall i | 0 < i < |ws|
        ensures ws[i] != [] && NoUpper(ws[i][1..])
      {
        assert ws[i] == rest[i - 1];
      }
    }
  }

  lemma {:induction false} SegmentsStartWithCapital(p: string)
    ensures forall i :: 0 < i < |Segments(p)| ==> Segments(p)[i] != [] && IsUpper(Segments(p)[i][0])
    decreases |p|
  {
    if p != [] {
      var k := NextCapital(p, 1);
      var ws, rest := Segments(p), Segments(p[k..]);
      assert ws == [p[..k]] + rest;
      SegmentsStartWithCapital(p[k..]);
      if rest != [] {
        assert rest == [p[k..][..NextCapital(p[k..], 1)]] + Segments(p[k..][NextCapital(p[k..], 1)..]);
        assert rest[0][0] == p[k];
      }
      forall i | 0 < i < |ws|
        ensures ws[i] != [] && IsUpper(ws[i][0])
      {
        assert ws[i] == rest[i - 1];
      }
    }
  }

  function LowerAll(ws: seq<string>): (vs: seq<string>)
    ensures |vs| == |ws|
  {
    seq(|ws|, i requires 0 <= i < |ws| => Lower(ws[i]))
  }

  lemma {:induction false} SlashBeforeCapitalsSegments(p: string)
    ensures SlashBeforeCapitals(p)
         == (if p != [] && IsUpper(p[0]) then "/" else "") + Join(Segments(p), '/')
    decreases |p|
  {
    if p != [] {
      var k := NextCapital(p, 1);
      if k == |p| {
        SegmentsOneWord(p);
      } else {
        SlashBeforeCapitalsSegments(p[k..]);
        SegmentsMoreWords(p);
      }
    }
  }

  /** A path part with no capital after its first character is one word. */
  lemma SegmentsOneWord(p: string)
    requires p != [] && NextCapital(p, 1) == |p|
    ensures SlashBeforeCapitals(p) == (if IsUpper(p[0]) then "/" else "") + Join(Segments(p), '/')
  {
    var lead := if IsUpper(p[0]) then "/" else "";
    SlashBeforeCapitalsFirstWord(p);
    JoinSegmentsFirstWord(p);
    assert p[..|p|] == p;
    assert SlashBeforeCapitals(p[|p|..]) == [];
    assert SlashBeforeCapitals(p) == lead + p + [];
    assert lead + p + [] == lead + p;
  }

  /** The step of the induction: the first word, a slash, then the rest's words. */
  lemma SegmentsMoreWords(p: string)
    requires p != [] && NextCapital(p, 1) < |p|
    requires var b := p[NextCapital(p, 1)..];
      SlashBeforeCapitals(b) == (if IsUpper(b[0]) then "/" else "") + Join(Segments(b), '/')
    ensures SlashBeforeCapitals(p) == (if IsUpper(p[0]) then "/" else "") + Join(Segments(p), '/')
  {
    var k := NextCapital(p, 1);
    var b := p[k..];
    assert IsUpper(b[0]);
    SlashBeforeCapitalsFirstWord(p);
    JoinSegmentsFirstWord(p);
    ConcatStep(SlashBeforeCapitals(p), Join(Segments(p), '/'), if IsUpper(p[0]) then "/" else "",
               p[..k], SlashBeforeCapitals(b), Join(Segments(b), '/'));
  }

  lemma ConcatStep(whole: string, joined: string, lead: string, a: string, rewritten: string, rest: string)
    requires whole == lead + a + rewritten && rewritten == "/" + rest
    requires joined == a + "/" + rest
    ensures whole == lead + joined
  {
  }

  /** The rewrite of a path part is the rewrite of its first word followed by
      the rewrite of the rest. */
  lemma SlashBeforeCapitalsFirstWord(p: string)
    requires p != []
    ensures var k := NextCapital(p, 1);
      SlashBeforeCapitals(p)
      == (if IsUpper(p[0]) then "/" else "") + p[..k] + SlashBeforeCapitals(p[k..])
  {
    FirstWordHasNoInnerCapital(p);
    SlashBeforeCapitalsSplitAt(p, NextCapital(p, 1));
  }

  lemma SlashBeforeCapitalsSplitAt(p: string, k: nat)
    requires 0 < k <= |p| && NoUpper(p[..k][1..])
    ensures SlashBeforeCapitals(p)
      == (if IsUpper(p[0]) then "/" else "") + p[..k] + SlashBeforeCapitals(p[k..])
  {
    var a, b := p[..k], p[k..];
    calc {
      SlashBeforeCapitals(p);
      { assert p == a + b; }
      SlashBeforeCapitals(a + b);
      { SlashBeforeCapitalsAppend(a, b); }
      SlashBeforeCapitals(a) + SlashBeforeCapitals(b);
      { SlashBeforeCapitalsWord(a); }
      (if IsUpper(a[0]) then "/" else "") + a + SlashBeforeCapitals(b);
    }
  }

  lemma FirstWordHasNoInnerCapital(p: string)
    requires p != []
    ensures p[..NextCapital(p, 1)] != [] && NoUpper(p[..NextCapital(p, 1)][1..])
  {
    var k := NextCapital(p, 1);
    var a := p[..k];
    forall i | 0 <= i < |a[1..]|
      ensures !IsUpper(a[1..][i])
    {
      assert a[1..][i] == p[i + 1];
    }
  }

  /** A word is rewritten to itself, after a slash when it starts with a capital. */
  lemma SlashBeforeCapitalsWord(a: string)
    requires a != [] && NoUpper(a[1..])
    ensures SlashBeforeCapitals(a) == (if IsUpper(a[0]) then "/" else "") + a
  {
    SlashBeforeCapitalsOfNoUpper(a[1..]);
    assert a == [a[0]] + a[1..];
  }

  lemma JoinSegmentsFirstWord(p: string)
    requires p != []
    ensures var k := NextCapital(p, 1);
      Join(Segments(p), '/')
      == if k == |p| then p else p[..k] + "/" + Join(Segments(p[k..]), '/')
  {
    var k := NextCapital(p, 1);
    var ws := Segments(p[k..]);
    assert Segments(p) == [p[..k]] + ws;
    if k == |p| {
      assert ws == [];
    } else {
      assert ws != [];
      assert ([p[..k]] + ws)[1..] == ws;
    }
  }

  lemma {:induction false} SlashBeforeCapitalsOfNoUpper(s: string)
    requires NoUpper(s)
    ensures SlashBeforeCapitals(s) == s
  {
    if s != [] {
      SlashBeforeCapitalsOfNoUpper(s[1..]);
    }
  }

  lemma {:induction false} LowerJoin(ws: seq<string>)
    ensures Lower(Join(ws, '/')) == Join(LowerAll(ws), '/')
  {
    if |ws| >= 2 {
      LowerJoin(ws[1..]);
      LowerAppend(ws[0] + ['/'], Join(ws[1..], '/'));
      LowerAppend(ws[0], ['/']);
      assert LowerAll(ws)[1..] == LowerAll(ws[1..]);
    }
  }

  /** The route path is the path part's words, lower-cased and joined with
      slashes -- provided the path part does not itself start with a slash,
      which the rewrite would drop. */
  lemma RoutePathSegments(pathPart: string)
    requires pathPart == [] || pathPart[0] != '/'
    ensures RoutePath(pathPart) == Join(LowerAll(Segments(pathPart)), '/')
  {
    var j := Join(Segments(pathPart), '/');
    SlashBeforeCapitalsSegments(pathPart);
    LowerJoin(Segments(pathPart));
    if pathPart != [] && IsUpper(pathPart[0]) {
      calc {
        Lower(SlashBeforeCapitals(pathPart));
        Lower("/" + j);
        { LowerAppend("/", j); }
        "/" + Lower(j);
      }
    } else {
      assert SlashBeforeCapitals(pathPart) == j;
      if pathPart != [] {
        assert SlashBeforeCapitals(pathPart)[0] == pathPart[0];
      }
    }
  }

  lemma {:induction false} FlattenHas(ws: seq<string>, i: nat, j: nat)
    requires i < |ws| && j < |ws[i]|
    ensures ws[i][j] in Flatten(ws)
  {
    if i == 0 {
      assert Flatten(ws) == ws[0] + Flatten(ws[1..]);
      assert Flatten(ws)[j] == ws[0][j];
    } else {
      FlattenHas(ws[1..], i - 1, j);
    }
  }

  /** Splitting the route path at its slashes gives back exactly the
      lower-cased words of a slash-free, non-empty path part. */
  lemma SplitRoutePath(pathPart: string)
    requires pathPart != [] && '/' !in pathPart
    ensures Split(RoutePath(pathPart), '/') == LowerAll(Segments(pathPart))
  {
    var ws := Segments(pathPart);
    RoutePathSegments(pathPart);
    SegmentsAreWords(pathPart);
    forall i | 0 <= i < |ws|
      ensures '/' !in LowerAll(ws)[i]
    {
      forall j | 0 <= j < |ws[i]|
        ensures LowerAll(ws)[i][j] != '/'
      {
        FlattenHas(ws, i, j);
      }
    }
    SplitJoin(LowerAll(ws), '/');
  }

  // ---------------------------------------------------------------------------
  // Two worked examples
  // ---------------------------------------------------------------------------

  /** Only the final `EventLambda` is stripped; the earlier `Event` stays. */
  lemma EventExample()
    ensures DeriveArcNameAndPragma("MyEventEventLambda") == Classification("myevent", Events)
  {
    ClassifySuffix("MyEvent", 0);
    assert "MyEvent" + "EventLambda" == "MyEventEventLambda";
    assert Lower("MyEvent") == "myevent";
  }

  /** A run of capitals is split letter by letter, not as one word. */
  lemma CapitalRunExample()
    ensures RoutePath("APIUsers") == "a/p/i/users"
  {
    CapitalRunRewrite();
    assert Lower("/A/P/I/Users") == "/a/p/i/users";
  }

  lemma CapitalRunRewrite()
    ensures SlashBeforeCapitals("APIUsers") == "/A/P/I/Users"
  {
    assert "APIUsers" == "API" + "Users";
    SlashBeforeCapitalsAppend("API", "Users");
    CapitalRunPrefix();
    assert NoUpper("Users"[1..]);
    SlashBeforeCapitalsWord("Users");
  }

  lemma CapitalRunPrefix()
    ensures SlashBeforeCapitals("API") == "/A/P/I"
  {
    assert SlashBeforeCapitals("I") == "/I";
    assert SlashBeforeCapitals("PI") == "/P/I";
  }

}
