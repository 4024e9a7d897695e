/** Splitting of the raw JSON-lines export: the lines whose timestamp lies in
    a closed time window are grouped by their `topic` field (groups in order
    of first appearance, lines in file order), the topic field is removed
    from each line, and each group is written to a file named after its
    topic. */
module TopicSplit {
  import opened Series

  /** A JSON value. */
  datatype Json =
    | JNull
    | JBool(b: bool)
    | JNum(n: real)
    | JStr(s: string)
    | JArray(elems: seq<Json>)
    | JObject(members: map<string, Json>)

  /** Python's truth value of a decoded JSON value. */
  predicate Truthy(v: Json)
  {
    match v
    case JNull => false
    case JBool(b) => b
    case JNum(n) => n != 0.0
    case JStr(s) => |s| > 0
    case JArray(e) => |e| > 0
    case JObject(m) => |m| > 0
  }

  /** One line of the export: the instant its `datetime.$date` field denotes
      (in seconds) and its fields. */
  datatype Line = Line(instant: int, fields: map<string, Json>)

  /** `item.get("topic")`: the topic field, or null when it is missing. */
  function TopicField(x: Line): Json
  {
    if "topic" in x.fields then x.fields["topic"] else JNull
  }

  /** A line without a topic, or whose topic is null, false, zero, empty text,
      an empty array or an empty object, is skipped; a text topic is grouped
      exactly when it is non-empty and the line is inside the window. */
  lemma FalsyTopicSkipped(x: Line, start: int, end: int)
    ensures "topic" !in x.fields ==> !Grouped(x, start, end)
    ensures ("topic" in x.fields && x.fields["topic"] in {JNull, JBool(false), JNum(0.0), JStr(""), JArray([]), JObject(map[])})
              ==> !Grouped(x, start, end)
    ensures ("topic" in x.fields && x.fields["topic"].JStr?)
              ==> (Grouped(x, start, end) <==> InWindow(x, start, end) && x.fields["topic"].s != "")
  {
  }

  /** Both ends of the window are inclusive. */
  predicate InWindow(x: Line, start: int, end: int)
  {
    start <= x.instant <= end
  }

  /** A line the split puts into a group: inside the window with a truthy topic. */
  predicate Grouped(x: Line, start: int, end: int)
  {
    InWindow(x, start, end) && Truthy(TopicField(x))
  }

  /** Line `x` is one of topic `t`'s: it lies inside the window and its
      topic is the non-empty string `t`. */
  predicate Carries(x: Line, t: string, start: int, end: int)
  {
    InWindow(x, start, end) && TopicField(x) == JStr(t) && t != ""
  }

  /** The lines of topic `t`, for the reference definition of a group: those
      that carry it, in file order. */
  function Members(xs: seq<Line>, t: string, start: int, end: int): seq<Line>
  {
    if |xs| == 0 then []
    else
      var last := xs[|xs| - 1];
      Members(xs[..|xs| - 1], t, start, end) + (if Carries(last, t, start, end) then [last] else [])
  }

  /** The position of the first line that carries `t`, or -1 when none does. */
  function FirstAt(xs: seq<Line>, t: string, start: int, end: int): (i: int)
    ensures -1 <= i < |xs|
    ensures 0 <= i ==> Carries(xs[i], t, start, end)
    ensures forall j :: 0 <= j < |xs| && (i < 0 || j < i) ==> !Carries(xs[j], t, start, end)
  {
    if |xs| == 0 then -1
    else
      var f := FirstAt(xs[..|xs| - 1], t, start, end);
      if 0 <= f then f
      else if Carries(xs[|xs| - 1], t, start, end) then |xs| - 1
      else -1
  }

  /** Every line of a topic's members is a line of the window carrying it. */
  lemma {:induction false} MembersCarryTopic(xs: seq<Line>, t: string, start: int, end: int)
    ensures forall x :: x in Members(xs, t, start, end) ==>
              x in xs && InWindow(x, start, end) && TopicField(x) == JStr(t) && t != ""
    decreases |xs|
  {
    if |xs| > 0 {
      MembersCarryTopic(xs[..|xs| - 1], t, start, end);
    }
  }

  /** A line of the window with a non-empty text topic belongs to the
      members of that topic and of no other. */
  lemma GroupedLineInOneTopic(xs: seq<Line>, i: nat, start: int, end: int)
    requires i < |xs| && Grouped(xs[i], start, end) && TopicField(xs[i]).JStr?
    ensures forall u :: xs[i] in Members(xs, u, start, end) <==> u == TopicField(xs[i]).s
  {
    var t := TopicField(xs[i]).s;
    MembersHoldLine(xs, i, start, end);
    forall u | xs[i] in Members(xs, u, start, end)
      ensures u == t
    {
      MembersCarryTopic(xs, u, start, end);
    }
  }

  /** A line of the window with a non-empty text topic is among that topic's members. */
  lemma {:induction false} MembersHoldLine(xs: seq<Line>, i: nat, start: int, end: int)
    requires i < |xs| && Grouped(xs[i], start, end) && TopicField(xs[i]).JStr?
    ensures xs[i] in Members(xs, TopicField(xs[i]).s, start, end)
    decreases |xs|
  {
    var t := TopicField(xs[i]).s;
    MembersSnoc(xs, t, start, end);
    if i < |xs| - 1 {
      var init := xs[..|xs| - 1];
      assert init[i] == xs[i];
      MembersHoldLine(init, i, start, end);
    }
  }

  lemma MembersSnoc(xs: seq<Line>, t: string, start: int, end: int)
    requires |xs| > 0
    ensures var x := xs[|xs| - 1];
      Members(xs, t, start, end) == Members(xs[..|xs| - 1], t, start, end)
        + (if Carries(x, t, start, end) then [x] else [])
  {
  }

  datatype Group = Group(topic: string, items: seq<Line>)

  function Topics(gs: seq<Group>): (r: seq<string>)
    ensures |r| == |gs|
    ensures forall k :: 0 <= k < |gs| ==> r[k] == gs[k].topic
  {
    seq(|gs|, k requires 0 <= k < |gs| => gs[k].topic)
  }

  predicate DistinctTopics(gs: seq<Group>)
  {
    forall j, k :: 0 <= j < k < |gs| ==> gs[j].topic != gs[k].topic
  }

  /** Adds `x` to the group of topic `t`, opening that group at the end when
      the topic has not been seen. */
  function AddToGroup(gs: seq<Group>, t: string, x: Line): (r: seq<Group>)
    requires DistinctTopics(gs)
    ensures DistinctTopics(r)
    ensures t in Topics(gs) ==> |r| == |gs|
    ensures t in Topics(gs) ==> forall k :: 0 <= k < |gs| ==>
              r[k] == (if gs[k].topic == t then Group(t, gs[k].items + [x]) else gs[k])
    ensures t !in Topics(gs) ==> r == gs + [Group(t, [x])]
  {
    if |gs| == 0 then [Group(t, [x])]
    else if gs[0].topic == t then
      JoinAtHead(gs, t, x);
      [Group(t, gs[0].items + [x])] + gs[1..]
    else
      DistinctTail(gs);
      var rest := AddToGroup(gs[1..], t, x);
      AddBehindHead(gs, t, x, rest);
      [gs[0]] + rest
  }

  lemma DistinctTail(gs: seq<Group>)
    requires |gs| > 0 && DistinctTopics(gs)
    ensures DistinctTopics(gs[1..])
  {
    var tail := gs[1..];
    forall j, k | 0 <= j < k < |tail|
      ensures tail[j].topic != tail[k].topic
    {
      assert tail[j] == gs[j + 1] && tail[k] == gs[k + 1];
    }
  }

  /** Groups with the topics of distinct-topic groups, position by position,
      have distinct topics. */
  lemma SameTopicsDistinct(gs: seq<Group>, r: seq<Group>)
    requires DistinctTopics(gs) && |r| == |gs|
    requires forall k :: 0 <= k < |gs| ==> r[k].topic == gs[k].topic
    ensures DistinctTopics(r)
  {
  }

  /** A group of a topic not yet present can be put at the end. */
  lemma AppendNewTopicDistinct(gs: seq<Group>, g: Group)
    requires DistinctTopics(gs) && g.topic !in Topics(gs)
    ensures DistinctTopics(gs + [g])
  {
    var r := gs + [g];
    forall j, k | 0 <= j < k < |r|
      ensures r[j].topic != r[k].topic
    {
      assert Topics(gs)[j] == gs[j].topic;
    }
  }

  /** The group of `t` is the first one: it is extended in place. */
  lemma JoinAtHead(gs: seq<Group>, t: string, x: Line)
    requires |gs| > 0 && DistinctTopics(gs) && gs[0].topic == t
    ensures var r := [Group(t, gs[0].items + [x])] + gs[1..];
      && DistinctTopics(r)
      && t in Topics(gs)
      && |r| == |gs|
      && forall k :: 0 <= k < |gs| ==>
           r[k] == (if gs[k].topic == t then Group(t, gs[k].items + [x]) else gs[k])
  {
    var r := [Group(t, gs[0].items + [x])] + gs[1..];
    assert Topics(gs)[0] == t;
    forall k | 0 <= k < |gs|
      ensures r[k] == (if gs[k].topic == t then Group(t, gs[k].items + [x]) else gs[k])
    {
      if k > 0 {
        assert gs[0].topic != gs[k].topic;
        assert r[k] == gs[k];
      }
    }
    SameTopicsDistinct(gs, r);
  }

  /** The first group is another topic's: it stays in front of the result
      for the remaining groups. */
  lemma AddBehindHead(gs: seq<Group>, t: string, x: Line, rest: seq<Group>)
    requires |gs| > 0 && DistinctTopics(gs) && gs[0].topic != t
    requires DistinctTopics(rest)
    requires t in Topics(gs[1..]) ==> |rest| == |gs| - 1
    requires t in Topics(gs[1..]) ==> forall k :: 0 <= k < |gs| - 1 ==>
               rest[k] == (if gs[1..][k].topic == t then Group(t, gs[1..][k].items + [x]) else gs[1..][k])
    requires t !in Topics(gs[1..]) ==> rest == gs[1..] + [Group(t, [x])]
    ensures var r := [gs[0]] + rest;
      && DistinctTopics(r)
      && (t in Topics(gs) ==> |r| == |gs|)
      && (t in Topics(gs) ==> forall k :: 0 <= k < |gs| ==>
            r[k] == (if gs[k].topic == t then Group(t, gs[k].items + [x]) else gs[k]))
      && (t !in Topics(gs) ==> r == gs + [Group(t, [x])])
  {
    assert Topics(gs) == [gs[0].topic] + Topics(gs[1..]);
    if t in Topics(gs[1..]) {
      JoinBehindHead(gs, t, x, rest);
    } else {
      var r := [gs[0]] + rest;
      assert r == gs + [Group(t, [x])] by {
        assert gs == [gs[0]] + gs[1..];
      }
      AppendNewTopicDistinct(gs, Group(t, [x]));
    }
  }

  lemma JoinBehindHead(gs: seq<Group>, t: string, x: Line, rest: seq<Group>)
    requires |gs| > 0 && DistinctTopics(gs) && gs[0].topic != t
    requires |rest| == |gs| - 1
    requires forall k :: 0 <= k < |gs| - 1 ==>
               rest[k] == (if gs[1..][k].topic == t then Group(t, gs[1..][k].items + [x]) else gs[1..][k])
    ensures var r := [gs[0]] + rest;
      && DistinctTopics(r)
      && forall k :: 0 <= k < |gs| ==>
           r[k] == (if gs[k].topic == t then Group(t, gs[k].items + [x]) else gs[k])
  {
    var r := [gs[0]] + rest;
    forall k | 0 <= k < |gs|
      ensures r[k] == (if gs[k].topic == t then Group(t, gs[k].items + [x]) else gs[k])
    {
      if k > 0 {
        assert r[k] == rest[k - 1] && gs[1..][k - 1] == gs[k];
      }
    }
    SameTopicsDistinct(gs, r);
  }

  /** The grouping loop over the lines in file order. Lines whose truthy
      topic is not a string are passed over here; the split refuses them. */
  function GroupLines(xs: seq<Line>, start: int, end: int): (r: seq<Group>)
    ensures DistinctTopics(r)
  {
    if |xs| == 0 then []
    else
      var gs := GroupLines(xs[..|xs| - 1], start, end);
      var x := xs[|xs| - 1];
      if Grouped(x, start, end) && TopicField(x).JStr? then AddToGroup(gs, TopicField(x).s, x)
      else gs
  }

  /** Every group holds exactly the lines of its topic in file order, and a
      topic has a group iff some line of the window carries it. */
  ghost predicate GroupsMatch(xs: seq<Line>, gs: seq<Group>, start: int, end: int)
  {
    GroupsHoldMembers(xs, gs, start, end) && TopicsPresent(xs, gs, start, end)
  }

  predicate GroupsHoldMembers(xs: seq<Line>, gs: seq<Group>, start: int, end: int)
  {
    forall k :: 0 <= k < |gs| ==> gs[k].items == Members(xs, gs[k].topic, start, end)
  }

  ghost predicate TopicsPresent(xs: seq<Line>, gs: seq<Group>, start: int, end: int)
  {
    forall u :: u in Topics(gs) <==> Members(xs, u, start, end) != []
  }

  /** The grouping loop builds the reference groups: each grouped line lands
      in one group, the one of its topic, after the lines before it. */
  lemma {:induction false} GroupsAreMembers(xs: seq<Line>, start: int, end: int)
    ensures GroupsMatch(xs, GroupLines(xs, start, end), start, end)
    decreases |xs|
  {
    if |xs| > 0 {
      GroupsAreMembers(xs[..|xs| - 1], start, end);
      GroupsMatchStep(xs, start, end);
    }
  }

  /** Induction step of the grouping loop: the last line of `xs`. */
  lemma GroupsMatchStep(xs: seq<Line>, start: int, end: int)
    requires |xs| > 0
    requires GroupsMatch(xs[..|xs| - 1], GroupLines(xs[..|xs| - 1], start, end), start, end)
    ensures GroupsMatch(xs, GroupLines(xs, start, end), start, end)
  {
    var x := xs[|xs| - 1];
    var gs := GroupLines(xs[..|xs| - 1], start, end);
    if Grouped(x, start, end) && TopicField(x).JStr? {
      var t := TopicField(x).s;
      if t in Topics(gs) {
        GroupsMatchJoin(xs, gs, t, start, end);
      } else {
        GroupsMatchOpen(xs, gs, t, start, end);
      }
    } else {
      GroupsMatchSkip(xs, gs, start, end);
    }
  }

  /** A line that joins no group. */
  lemma GroupsMatchSkip(xs: seq<Line>, gs: seq<Group>, start: int, end: int)
    requires |xs| > 0
    requires var x := xs[|xs| - 1]; !(Grouped(x, start, end) && TopicField(x).JStr?)
    requires GroupsMatch(xs[..|xs| - 1], gs, start, end)
    ensures GroupsMatch(xs, gs, start, end)
  {
    forall u
      ensures Members(xs, u, start, end) == Members(xs[..|xs| - 1], u, start, end)
    {
      MembersSnoc(xs, u, start, end);
    }
  }

  /** A line that joins the existing group of topic `t`. */
  lemma GroupsMatchJoin(xs: seq<Line>, gs: seq<Group>, t: string, start: int, end: int)
    requires |xs| > 0
    requires var x := xs[|xs| - 1]; Grouped(x, start, end) && TopicField(x) == JStr(t)
    requires DistinctTopics(gs) && t in Topics(gs)
    requires GroupsMatch(xs[..|xs| - 1], gs, start, end)
    ensures GroupsMatch(xs, AddToGroup(gs, t, xs[|xs| - 1]), start, end)
  {
    JoinKeepsItems(xs, gs, t, start, end);
    JoinKeepsTopics(xs, gs, t, start, end);
  }

  lemma JoinKeepsItems(xs: seq<Line>, gs: seq<Group>, t: string, start: int, end: int)
    requires |xs| > 0
    requires var x := xs[|xs| - 1]; Grouped(x, start, end) && TopicField(x) == JStr(t)
    requires DistinctTopics(gs) && t in Topics(gs)
    requires GroupsHoldMembers(xs[..|xs| - 1], gs, start, end)
    ensures GroupsHoldMembers(xs, AddToGroup(gs, t, xs[|xs| - 1]), start, end)
  {
    var x := xs[|xs| - 1];
    var r := AddToGroup(gs, t, x);
    forall k | 0 <= k < |r|
      ensures r[k].items == Members(xs, r[k].topic, start, end)
    {
      MembersSnoc(xs, gs[k].topic, start, end);
      if gs[k].topic == t {
        assert r[k] == Group(t, gs[k].items + [x]);
      } else {
        assert r[k] == gs[k];
      }
    }
  }

  lemma JoinKeepsTopics(xs: seq<Line>, gs: seq<Group>, t: string, start: int, end: int)
    requires |xs| > 0
    requires var x := xs[|xs| - 1]; Grouped(x, start, end) && TopicField(x) == JStr(t)
    requires DistinctTopics(gs) && t in Topics(gs)
    requires TopicsPresent(xs[..|xs| - 1], gs, start, end)
    ensures TopicsPresent(xs, AddToGroup(gs, t, xs[|xs| - 1]), start, end)
  {
    var r := AddToGroup(gs, t, xs[|xs| - 1]);
    assert Topics(r) == Topics(gs);
    forall u
      ensures u in Topics(r) <==> Members(xs, u, start, end) != []
    {
      MembersSnoc(xs, u, start, end);
    }
  }

  /** A line that opens a group for the new topic `t`. */
  lemma GroupsMatchOpen(xs: seq<Line>, gs: seq<Group>, t: string, start: int, end: int)
    requires |xs| > 0
    requires var x := xs[|xs| - 1]; Grouped(x, start, end) && TopicField(x) == JStr(t)
    requires DistinctTopics(gs) && t !in Topics(gs)
    requires GroupsMatch(xs[..|xs| - 1], gs, start, end)
    ensures GroupsMatch(xs, AddToGroup(gs, t, xs[|xs| - 1]), start, end)
  {
    var init := xs[..|xs| - 1];
    var x := xs[|xs| - 1];
    var r := AddToGroup(gs, t, x);
    assert r == gs + [Group(t, [x])];
    forall k | 0 <= k < |r|
      ensures r[k].items == Members(xs, r[k].topic, start, end)
    {
      if k < |gs| {
        assert Topics(gs)[k] == gs[k].topic;
        assert r[k] == gs[k];
        MembersSnoc(xs, gs[k].topic, start, end);
      } else {
        MembersSnoc(xs, t, start, end);
        assert Members(init, t, start, end) == [];
      }
    }
    OpenAddsTopic(xs, gs, t, start, end);
  }

  lemma OpenAddsTopic(xs: seq<Line>, gs: seq<Group>, t: string, start: int, end: int)
    requires |xs| > 0
    requires var x := xs[|xs| - 1]; Grouped(x, start, end) && TopicField(x) == JStr(t)
    requires DistinctTopics(gs) && t !in Topics(gs)
    requires TopicsPresent(xs[..|xs| - 1], gs, start, end)
    ensures TopicsPresent(xs, AddToGroup(gs, t, xs[|xs| - 1]), start, end)
  {
    var r := AddToGroup(gs, t, xs[|xs| - 1]);
    assert Topics(r) == Topics(gs) + [t];
    forall u
      ensures u in Topics(r) <==> Members(xs, u, start, end) != []
    {
      MembersSnoc(xs, u, start, end);
      assert u in Topics(r) <==> u in Topics(gs) || u == t;
    }
  }

  /** Topics listed in order of their first line in `xs`: each has one, and
      an earlier topic's comes first. */
  predicate InFirstAppearanceOrder(xs: seq<Line>, ts: seq<string>, start: int, end: int)
  {
    && (forall k :: 0 <= k < |ts| ==> 0 <= FirstAt(xs, ts[k], start, end))
    && (forall j, k :: 0 <= j < k < |ts| ==> FirstAt(xs, ts[j], start, end) < FirstAt(xs, ts[k], start, end))
  }

  /** The grouping loop opens a topic's group at the topic's first line, so
      the groups come in order of first appearance. */
  lemma {:induction false} GroupsInFirstAppearanceOrder(xs: seq<Line>, start: int, end: int)
    ensures InFirstAppearanceOrder(xs, Topics(GroupLines(xs, start, end)), start, end)
    decreases |xs|
  {
    if |xs| > 0 {
      GroupsInFirstAppearanceOrder(xs[..|xs| - 1], start, end);
      FirstAppearanceStep(xs, start, end);
    }
  }

  /** Induction step: the last line of `xs` opens a group only for a topic
      no earlier line carries, and then that group goes last. */
  lemma FirstAppearanceStep(xs: seq<Line>, start: int, end: int)
    requires |xs| > 0
    requires InFirstAppearanceOrder(xs[..|xs| - 1], Topics(GroupLines(xs[..|xs| - 1], start, end)), start, end)
    ensures InFirstAppearanceOrder(xs, Topics(GroupLines(xs, start, end)), start, end)
  {
    var init := xs[..|xs| - 1];
    var x := xs[|xs| - 1];
    var gs := GroupLines(init, start, end);
    var ts := Topics(gs);
    OrderSurvivesNewLine(xs, ts, start, end);
    if Grouped(x, start, end) && TopicField(x).JStr? {
      var t := TopicField(x).s;
      var r := AddToGroup(gs, t, x);
      if t in ts {
        assert Topics(r) == ts;
      } else {
        CarriedTopicHasGroup(init, t, start, end);
        assert Topics(r) == ts + [t];
        OrderWithNewTopic(xs, ts, t, start, end);
      }
    }
  }

  /** A topic carried before the last line keeps its first position, which
      lies before the last line. */
  lemma OrderSurvivesNewLine(xs: seq<Line>, ts: seq<string>, start: int, end: int)
    requires |xs| > 0
    requires InFirstAppearanceOrder(xs[..|xs| - 1], ts, start, end)
    ensures InFirstAppearanceOrder(xs, ts, start, end)
    ensures forall k :: 0 <= k < |ts| ==> FirstAt(xs, ts[k], start, end) < |xs| - 1
  {
    var init := xs[..|xs| - 1];
    forall k | 0 <= k < |ts|
      ensures FirstAt(xs, ts[k], start, end) == FirstAt(init, ts[k], start, end)
    {
    }
  }

  /** A topic first carried by the last line goes after all the others. */
  lemma OrderWithNewTopic(xs: seq<Line>, ts: seq<string>, t: string, start: int, end: int)
    requires |xs| > 0
    requires InFirstAppearanceOrder(xs, ts, start, end)
    requires forall k :: 0 <= k < |ts| ==> FirstAt(xs, ts[k], start, end) < |xs| - 1
    requires FirstAt(xs[..|xs| - 1], t, start, end) < 0 && Carries(xs[|xs| - 1], t, start, end)
    ensures InFirstAppearanceOrder(xs, ts + [t], start, end)
  {
    assert FirstAt(xs, t, start, end) == |xs| - 1;
    var r := ts + [t];
    assert forall k :: 0 <= k < |ts| ==> r[k] == ts[k];
  }

  /** A topic some line carries has a group. */
  lemma CarriedTopicHasGroup(xs: seq<Line>, t: string, start: int, end: int)
    ensures 0 <= FirstAt(xs, t, start, end) ==> t in Topics(GroupLines(xs, start, end))
  {
    var i := FirstAt(xs, t, start, end);
    if 0 <= i {
      MembersHoldLine(xs, i, start, end);
      GroupsAreMembers(xs, start, end);
    }
  }

  /** The line as written out: the `topic` field deleted, nothing else changed. */
  function StripTopic(x: Line): (r: Line)
    ensures "topic" !in r.fields
    ensures r.instant == x.instant
    ensures forall key :: key in x.fields && key != "topic" ==> key in r.fields && r.fields[key] == x.fields[key]
    ensures forall key :: key in r.fields ==> key in x.fields
  {
    Line(x.instant, x.fields - {"topic"})
  }

  function StripAll(xs: seq<Line>): (r: seq<Line>)
    ensures |r| == |xs|
    ensures forall i :: 0 <= i < |xs| ==> r[i] == StripTopic(xs[i])
  {
    seq(|xs|, i requires 0 <= i < |xs| => StripTopic(xs[i]))
  }

  /** A line inside the window whose topic is truthy but not a string: the
      split fails on it, as a key that cannot be hashed or as a topic that
      cannot be turned into a file name. */
  predicate HasNonTextTopic(xs: seq<Line>, start: int, end: int)
  {
    exists i :: 0 <= i < |xs| && Grouped(xs[i], start, end) && !TopicField(xs[i]).JStr?
  }

  /** The groups as they are written: one per topic, in order of first
      appearance, each holding its topic's lines with the topic removed. */
  function SplitByTopic(xs: seq<Line>, start: int, end: int): (r: Result<seq<Group>>)
    ensures r.Err? <==> HasNonTextTopic(xs, start, end)
    ensures r.Err? ==> r.error == TopicNotText
    ensures r.Ok? ==> DistinctTopics(r.value)
    ensures r.Ok? ==> forall k :: 0 <= k < |r.value| ==>
              r.value[k].topic != "" && r.value[k].items == StripAll(Members(xs, r.value[k].topic, start, end))
    ensures r.Ok? ==> forall t :: t in Topics(r.value) <==> Members(xs, t, start, end) != []
    ensures r.Ok? ==> InFirstAppearanceOrder(xs, Topics(r.value), start, end)
  {
    if HasNonTextTopic(xs, start, end) then Err(TopicNotText)
    else
      var gs := GroupLines(xs, start, end);
      GroupsAreMembers(xs, start, end);
      GroupsInFirstAppearanceOrder(xs, start, end);
      var out := seq(|gs|, k requires 0 <= k < |gs| => Group(gs[k].topic, StripAll(gs[k].items)));
      assert Topics(out) == Topics(gs);
      assert forall k :: 0 <= k < |gs| ==> gs[k].topic != "" by {
        forall k | 0 <= k < |gs|
          ensures gs[k].topic != ""
        {
          assert Topics(gs)[k] == gs[k].topic;
          assert Members(xs, gs[k].topic, start, end) != [];
          MembersCarryTopic(xs, gs[k].topic, start, end);
          var y := Members(xs, gs[k].topic, start, end)[0];
          assert y in Members(xs, gs[k].topic, start, end);
        }
      }
      Ok(out)
  }

  /** Replaces every `a` in `t` by `b`. */
  function ReplaceChar(t: string, a: char, b: char): (r: string)
    ensures |r| == |t|
    ensures forall i :: 0 <= i < |t| ==> r[i] == (if t[i] == a then b else t[i])
  {
    if |t| == 0 then [] else [if t[0] == a then b else t[0]] + ReplaceChar(t[1..], a, b)
  }

  /** The output file name of a topic: slashes, then spaces, become
      underscores, and `.json` is appended. */
  function TopicFileName(t: string): (r: string)
    ensures |r| == |t| + 5
    ensures r[|t|..] == ".json"
    ensures forall i :: 0 <= i < |t| ==> r[i] == (if t[i] == '/' || t[i] == ' ' then '_' else t[i])
    ensures forall i :: 0 <= i < |r| ==> r[i] != '/' && r[i] != ' '
  {
    var u := ReplaceChar(ReplaceChar(t, '/', '_'), ' ', '_');
    ExtensionHasNoSeparator();
    u + ".json"
  }

  lemma ExtensionHasNoSeparator()
    ensures |".json"| == 5
    ensures forall i :: 0 <= i < 5 ==> ".json"[i] != '/' && ".json"[i] != ' '
  {
  }

  /** The output directory after the groups are written one after the other:
      a later group whose file name collides replaces the earlier file. */
  function WriteGroups(gs: seq<Group>): (r: map<string, seq<Line>>)
    ensures |r| <= |gs|
    ensures |gs| > 0 ==> TopicFileName(gs[|gs| - 1].topic) in r
                         && r[TopicFileName(gs[|gs| - 1].topic)] == gs[|gs| - 1].items
  {
    if |gs| == 0 then map[]
    else WriteGroups(gs[..|gs| - 1])[TopicFileName(gs[|gs| - 1].topic) := gs[|gs| - 1].items]
  }

  /** One file per distinct name among the groups. */
  lemma {:induction false} WriteGroupsNames(gs: seq<Group>)
    ensures forall k :: 0 <= k < |gs| ==> TopicFileName(gs[k].topic) in WriteGroups(gs)
    ensures forall name :: name in WriteGroups(gs) ==>
              exists k :: 0 <= k < |gs| && name == TopicFileName(gs[k].topic)
  {
    WriteGroupsHasEveryName(gs);
    WriteGroupsOnlyNames(gs);
  }

  lemma {:induction false} WriteGroupsHasEveryName(gs: seq<Group>)
    ensures forall k :: 0 <= k < |gs| ==> TopicFileName(gs[k].topic) in WriteGroups(gs)
    decreases |gs|
  {
    if |gs| > 0 {
      var init := gs[..|gs| - 1];
      WriteGroupsHasEveryName(init);
      assert WriteGroups(gs) == WriteGroups(init)[TopicFileName(gs[|gs| - 1].topic) := gs[|gs| - 1].items];
      forall k | 0 <= k < |gs|
        ensures TopicFileName(gs[k].topic) in WriteGroups(gs)
      {
        if k < |init| {
          assert init[k] == gs[k];
        }
      }
    }
  }

  lemma {:induction false} WriteGroupsOnlyNames(gs: seq<Group>)
    ensures forall name :: name in WriteGroups(gs) ==>
              exists k :: 0 <= k < |gs| && name == TopicFileName(gs[k].topic)
    decreases |gs|
  {
    if |gs| > 0 {
      var init := gs[..|gs| - 1];
      WriteGroupsOnlyNames(init);
      assert WriteGroups(gs) == WriteGroups(init)[TopicFileName(gs[|gs| - 1].topic) := gs[|gs| - 1].items];
      forall name | name in WriteGroups(gs)
        ensures exists k :: 0 <= k < |gs| && name == TopicFileName(gs[k].topic)
      {
        if name != TopicFileName(gs[|gs| - 1].topic) {
          assert name in WriteGroups(init);
          var k :| 0 <= k < |init| && name == TopicFileName(init[k].topic);
          assert init[k] == gs[k];
        }
      }
    }
  }

  /** The file of a name holds the items of the last group written under it:
      when no later group shares the name of group `k`, its file is group `k`'s. */
  lemma {:induction false} WriteGroupsLastWins(gs: seq<Group>, k: nat)
    requires k < |gs|
    requires forall j :: k < j < |gs| ==> TopicFileName(gs[j].topic) != TopicFileName(gs[k].topic)
    ensures TopicFileName(gs[k].topic) in WriteGroups(gs)
    ensures WriteGroups(gs)[TopicFileName(gs[k].topic)] == gs[k].items
    decreases |gs|
  {
    var init := gs[..|gs| - 1];
    assert WriteGroups(gs) == WriteGroups(init)[TopicFileName(gs[|gs| - 1].topic) := gs[|gs| - 1].items];
    if k < |init| {
      assert init[k] == gs[k];
      assert TopicFileName(gs[|gs| - 1].topic) != TopicFileName(gs[k].topic);
      forall j | k < j < |init|
        ensures TopicFileName(init[j].topic) != TopicFileName(init[k].topic)
      {
        assert init[j] == gs[j];
      }
      WriteGroupsLastWins(init, k);
    }
  }

  /** The whole split: group, strip, write. */
  function SplitJson(xs: seq<Line>, start: int, end: int): (r: Result<map<string, seq<Line>>>)
    ensures r.Err? <==> HasNonTextTopic(xs, start, end)
    ensures r.Ok? ==> forall name :: name in r.value ==>
              exists t :: Members(xs, t, start, end) != [] && name == TopicFileName(t)
    ensures r.Ok? ==> forall t :: Members(xs, t, start, end) != [] ==> TopicFileName(t) in r.value
  {
    match SplitByTopic(xs, start, end)
    case Err(e) => Err(e)
    case Ok(gs) =>
      FilesMatchTopics(xs, gs, start, end);
      Ok(WriteGroups(gs))
  }

  /** When the groups' topics are exactly the topics the window carries, the
      written file names are exactly those topics' file names. */
  lemma FilesMatchTopics(xs: seq<Line>, gs: seq<Group>, start: int, end: int)
    requires forall t :: t in Topics(gs) <==> Members(xs, t, start, end) != []
    ensures forall name :: name in WriteGroups(gs) ==>
              exists t :: Members(xs, t, start, end) != [] && name == TopicFileName(t)
    ensures forall t :: Members(xs, t, start, end) != [] ==> TopicFileName(t) in WriteGroups(gs)
  {
    var dir := WriteGroups(gs);
    WriteGroupsNames(gs);
    forall name | name in dir
      ensures exists t :: Members(xs, t, start, end) != [] && name == TopicFileName(t)
    {
      var k :| 0 <= k < |gs| && name == TopicFileName(gs[k].topic);
      assert Topics(gs)[k] == gs[k].topic;
    }
    forall t | Members(xs, t, start, end) != []
      ensures TopicFileName(t) in dir
    {
      var k :| 0 <= k < |gs| && Topics(gs)[k] == t;
    }
  }

  /** When no two topics of the window share a file name, every topic's
      file holds exactly its lines, topic removed, in file order. */
  lemma EveryTopicWrittenWhenNamesDistinct(xs: seq<Line>, start: int, end: int, t: string)
    requires !HasNonTextTopic(xs, start, end)
    requires forall u :: Members(xs, u, start, end) != [] && u != t ==> TopicFileName(u) != TopicFileName(t)
    requires Members(xs, t, start, end) != []
    ensures SplitJson(xs, start, end).Ok?
    ensures var dir := SplitJson(xs, start, end).value;
      TopicFileName(t) in dir && dir[TopicFileName(t)] == StripAll(Members(xs, t, start, end))
  {
    var gs := SplitByTopic(xs, start, end).value;
    assert t in Topics(gs);
    var k :| 0 <= k < |gs| && Topics(gs)[k] == t;
    forall j | k < j < |gs|
      ensures TopicFileName(gs[j].topic) != TopicFileName(gs[k].topic)
    {
      assert Topics(gs)[j] == gs[j].topic;
      assert gs[j].topic in Topics(gs);
    }
    WriteGroupsLastWins(gs, k);
  }

  /** Topics whose file names collide share one file, and it holds the lines
      of the topic among them whose first line comes last: that topic's group
      is written last. */
  lemma SharedFileGoesToLatestTopic(xs: seq<Line>, start: int, end: int, t: string)
    requires !HasNonTextTopic(xs, start, end)
    requires Members(xs, t, start, end) != []
    requires forall u :: Members(xs, u, start, end) != [] && u != t && TopicFileName(u) == TopicFileName(t) ==>
               FirstAt(xs, u, start, end) < FirstAt(xs, t, start, end)
    ensures SplitJson(xs, start, end).Ok?
    ensures var dir := SplitJson(xs, start, end).value;
      TopicFileName(t) in dir && dir[TopicFileName(t)] == StripAll(Members(xs, t, start, end))
  {
    var gs := SplitByTopic(xs, start, end).value;
    assert t in Topics(gs);
    var k :| 0 <= k < |gs| && Topics(gs)[k] == t;
    forall j | k < j < |gs|
      ensures TopicFileName(gs[j].topic) != TopicFileName(gs[k].topic)
    {
      assert Topics(gs)[j] == gs[j].topic;
      assert gs[j].topic in Topics(gs);
      assert FirstAt(xs, Topics(gs)[k], start, end) < FirstAt(xs, Topics(gs)[j], start, end);
    }
    WriteGroupsLastWins(gs, k);
  }

  /** The file name is not injective: `a/b` and `a_b` share `a_b.json`, and
      the group written second replaces the first. */
  lemma CollidingTopicsOverwrite(first: seq<Line>, second: seq<Line>)
    ensures "a/b" != "a_b"
    ensures TopicFileName("a/b") == TopicFileName("a_b") == "a_b.json"
    ensures WriteGroups([Group("a/b", first), Group("a_b", second)]) == map["a_b.json" := second]
  {
    var n1 := TopicFileName("a/b");
    var n2 := TopicFileName("a_b");
    assert n1 == "a_b.json";
    assert n2 == "a_b.json";
    var gs := [Group("a/b", first), Group("a_b", second)];
    assert gs[..1] == [Group("a/b", first)];
    assert [Group("a/b", first)][..0] == [];
    assert WriteGroups(gs[..1]) == map["a_b.json" := first];
    assert WriteGroups(gs) == WriteGroups(gs[..1])["a_b.json" := second];
  }

  /** The collision through the whole split: `a/b` carried at instant 0 and
      `a_b` at instant 1 leave one file, `a_b.json`, holding only the `a_b`
      line, topic removed. */
  lemma CollidingTopicsInSplit()
    ensures var xs := [Line(0, map["topic" := JStr("a/b")]), Line(1, map["topic" := JStr("a_b")])];
      SplitJson(xs, 0, 1) == Ok(map["a_b.json" := [Line(1, map[])]])
  {
    var x0 := Line(0, map["topic" := JStr("a/b")]);
    var x1 := Line(1, map["topic" := JStr("a_b")]);
    var xs := [x0, x1];
    assert xs[..1] == [x0] && [x0][..0] == [];
    assert GroupLines([x0], 0, 1) == [Group("a/b", [x0])];
    assert Topics([Group("a/b", [x0])]) == ["a/b"];
    assert "a_b" !in ["a/b"] by {
      assert "a_b"[1] != "a/b"[1];
    }
    assert GroupLines(xs, 0, 1) == [Group("a/b", [x0]), Group("a_b", [x1])];
    assert !HasNonTextTopic(xs, 0, 1);
    assert x1.fields - {"topic"} == map[];
    var gs := SplitByTopic(xs, 0, 1).value;
    assert StripAll([x0]) == [StripTopic(x0)] && StripAll([x1]) == [Line(1, map[])];
    assert |gs| == 2 && gs[0] == Group("a/b", StripAll([x0])) && gs[1] == Group("a_b", StripAll([x1]));
    assert gs == [Group("a/b", [StripTopic(x0)]), Group("a_b", [Line(1, map[])])];
    CollidingTopicsOverwrite([StripTopic(x0)], [Line(1, map[])]);
  }
}
