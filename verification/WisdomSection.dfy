/** The generated section that each sleep cycle rewrites at the end of the master plan. */
module WisdomSection {
  import opened Text

  const HEADER := "\n## \U{1F9E0} Distilled Wisdom (Auto-generated)\n"
  const MAX_SUMMARY := 120

  datatype Entry = Entry(topic: string, scope: string, content: string)

  function Summary(content: string): string {
    if |content| > MAX_SUMMARY then content[..MAX_SUMMARY] + "\U{2026}" else content
  }

  function Bullet(e: Entry): string {
    "- **" + e.topic + "** (`" + e.scope + "`): " + Summary(e.content) + "\n"
  }

  /** The first entry of each topic, in order. */
  function FirstOfTopics(entries: seq<Entry>): seq<Entry> {
    if entries == [] then []
    else
      var prev, e := entries[..|entries| - 1], entries[|entries| - 1];
      FirstOfTopics(prev) + if e.topic in Topics(prev) then [] else [e]
  }

  function Topics(entries: seq<Entry>): set<string> {
    set e | e in entries :: e.topic
  }

  function Bullets(entries: seq<Entry>): string {
    if entries == [] then "" else Bullets(entries[..|entries| - 1]) + Bullet(entries[|entries| - 1])
  }

  lemma TopicsAppend(entries: seq<Entry>, e: Entry)
    ensures Topics(entries + [e]) == Topics(entries) + {e.topic}
  {
    var all := entries + [e];
    forall t
      ensures t in Topics(all) <==> t in Topics(entries) + {e.topic}
    {
      assert all[|entries|] == e;
      if t in Topics(entries) {
        var x :| x in entries && x.topic == t;
        assert x in all;
      }
    }
  }

  lemma TopicIn(entries: seq<Entry>, i: nat)
    requires i < |entries|
    ensures entries[i].topic in Topics(entries)
  {
    assert entries[i] in entries;
  }

  /** No topic is listed twice, and none is left out. */
  lemma {:induction false} TopicsListedOnce(entries: seq<Entry>)
    ensures var kept := FirstOfTopics(entries);
            && (forall i, j :: 0 <= i < j < |kept| ==> kept[i].topic != kept[j].topic)
            && Topics(kept) == Topics(entries)
  {
    if entries != [] {
      var init, last := entries[..|entries| - 1], entries[|entries| - 1];
      var kept := FirstOfTopics(init);
      TopicsListedOnce(init);
      assert entries == init + [last];
      TopicsAppend(init, last);
      if last.topic in Topics(init) {
        assert FirstOfTopics(entries) == kept + [] == kept;
      } else {
        TopicsAppend(kept, last);
        forall i | 0 <= i < |kept|
          ensures kept[i].topic != last.topic
        {
          TopicIn(kept, i);
        }
      }
    }
  }

  function Body(stamp: string, entries: seq<Entry>): string {
    "_Last distillation: " + stamp + "_\n\n" + Bullets(FirstOfTopics(entries))
  }

  /** The text before the first header: all of it when there is none. */
  function Before(header: string, plan: string): string {
    var i := Index(plan, header);
    if i == -1 then plan else plan[..i]
  }

  function Rewrite(header: string, plan: string, body: string): string {
    Before(header, plan) + header + body
  }

  lemma NextEntry(entries: seq<Entry>, i: nat)
    requires i < |entries|
    ensures Topics(entries[..i + 1]) == Topics(entries[..i]) + {entries[i].topic}
    ensures Bullets(FirstOfTopics(entries[..i + 1])) ==
            Bullets(FirstOfTopics(entries[..i]))
            + if entries[i].topic in Topics(entries[..i]) then "" else Bullet(entries[i])
  {
    var kept := FirstOfTopics(entries[..i]);
    assert entries[..i + 1][..i] == entries[..i];
    if entries[i].topic in Topics(entries[..i]) {
      assert FirstOfTopics(entries[..i + 1]) == kept + [] == kept;
    } else {
      assert FirstOfTopics(entries[..i + 1]) == kept + [entries[i]];
      assert (kept + [entries[i]])[..|kept|] == kept;
    }
  }

  method Bulleted(entries: seq<Entry>) returns (bullets: string)
    ensures bullets == Bullets(FirstOfTopics(entries))
  {
    bullets := "";
    var seen: set<string> := {};
    for i := 0 to |entries|
      invariant seen == Topics(entries[..i])
      invariant bullets == Bullets(FirstOfTopics(entries[..i]))
    {
      var e := entries[i];
      NextEntry(entries, i);
      if e.topic in seen {
        continue;
      }
      seen := seen + {e.topic};
      bullets := bullets + Bullet(e);
    }
    assert entries[..|entries|] == entries;
  }

  method AppendWisdom(plan: string, stamp: string, entries: seq<Entry>) returns (rewritten: string)
    ensures rewritten == Rewrite(HEADER, plan, Body(stamp, entries))
  {
    var content := plan;
    var idx := Index(content, HEADER);
    if idx != -1 {
      content := content[..idx];
    }
    var bullets := Bulleted(entries);
    return content + HEADER + ("_Last distillation: " + stamp + "_\n\n" + bullets);
  }

  lemma TopicsExactly(entries: seq<Entry>, topic: string)
    ensures topic in Topics(entries) <==> exists i :: 0 <= i < |entries| && entries[i].topic == topic
  {
    if i :| 0 <= i < |entries| && entries[i].topic == topic { TopicIn(entries, i); }
  }

  /** The section's text, entry by entry: a dated line, and a bullet for each entry whose topic no earlier
      entry has. */
  lemma BodyExactly(stamp: string, entries: seq<Entry>, i: nat)
    requires i < |entries|
    ensures Body(stamp, []) == "_Last distillation: " + stamp + "_\n\n"
    ensures Body(stamp, entries[..i + 1]) ==
            if exists j :: 0 <= j < i && entries[j].topic == entries[i].topic then Body(stamp, entries[..i])
            else Body(stamp, entries[..i]) + Bullet(entries[i])
  {
    var head := "_Last distillation: " + stamp + "_\n\n";
    NextEntry(entries, i);
    TopicsExactly(entries[..i], entries[i].topic);
    BodyJoins(head, Bullets(FirstOfTopics(entries[..i])), Bullet(entries[i]));
  }

  lemma BodyJoins(head: string, bullets: string, more: string)
    ensures head + (bullets + more) == (head + bullets) + more
    ensures bullets + "" == bullets && head + "" == head
  {
  }

  /** A bullet: topic, scope, and the content, cut off after 120 characters. */
  lemma BulletExactly(e: Entry)
    ensures var front := "- **" + e.topic + "** (`" + e.scope + "`): ";
            && (|e.content| <= 120 ==> Bullet(e) == front + e.content + "\n")
            && (|e.content| > 120 ==> Bullet(e) == front + (e.content[..120] + "\U{2026}") + "\n")
  {
  }

  // ---------- rewriting again and again ----------

  /** A header line with a newline before and after it. */
  ghost predicate IsHeaderLine(h: string) {
    |h| > 1 && forall k :: 0 <= k < |h| ==> (h[k] == '\n' <==> k == 0 || k == |h| - 1)
  }

  lemma WisdomHeaderIsHeaderLine()
    ensures IsHeaderLine(HEADER)
  {
  }

  predicate HasSection(h: string, plan: string) {
    Index(plan, h) != -1
  }

  /** The plans that a rewrite damages: no section yet, and a header line cut off before its newline. */
  predicate Fragile(h: string, plan: string)
    requires |h| > 0
  {
    var line := h[..|h| - 1];
    !HasSection(h, plan) && |line| <= |plan| && plan[|plan| - |line|..] == line
  }

  /** A header that overlaps the one appended to `pre` has only its last newline in common with it. */
  lemma OverlapOnlyAtNewline(h: string, pre: string, rest: string, j: nat)
    requires IsHeaderLine(h)
    requires j < |pre| < j + |h| && OccursAt(pre + h + rest, h, j)
    ensures j == |pre| - (|h| - 1) && pre[j..] == h[..|h| - 1]
  {
    var all, k := pre + h + rest, |pre| - j;
    assert h[k] == all[j + k] == h[0];
    assert h[..k] == all[j..j + k] == pre[j..];
  }

  lemma InsidePrefix(all: string, pre: string, h: string, j: int)
    requires pre <= all
    ensures OccursAt(pre, h, j) <==> OccursAt(all, h, j) && j + |h| <= |pre|
  {
    assert all[..|pre|] == pre;
    if 0 <= j <= |pre| - |h| {
      assert pre[j..j + |h|] == all[j..j + |h|];
    }
  }

  lemma BeforeIsHeaderFree(h: string, plan: string, j: int)
    requires h != ""
    ensures !OccursAt(Before(h, plan), h, j)
  {
    InsidePrefix(plan, Before(h, plan), h, j);
  }

  lemma OccursAtSeam(h: string, pre: string, rest: string)
    requires h != ""
    ensures OccursAt(pre + h + rest, h, |pre|)
    ensures |h| - 1 <= |pre| && pre[|pre| - (|h| - 1)..] == h[..|h| - 1] && h[|h| - 1] == h[0] ==>
              OccursAt(pre + h + rest, h, |pre| - (|h| - 1))
  {
    var all, n := pre + h + rest, |h| - 1;
    assert all[|pre|..|pre| + |h|] == h;
    if n <= |pre| && pre[|pre| - n..] == h[..n] && h[n] == h[0] {
      assert all[|pre| - n..|pre| - n + |h|] == pre[|pre| - n..] + [h[0]];
      assert h == h[..n] + [h[n]];
    }
  }

  /** Where the first header of a rewritten text stands, when the text before holds none. */
  lemma FirstHeader(h: string, pre: string, rest: string)
    requires IsHeaderLine(h) && forall i :: !OccursAt(pre, h, i)
    ensures var cut := |pre| - (|h| - 1);
            Index(pre + h + rest, h) == if cut >= 0 && pre[cut..] == h[..|h| - 1] then cut else |pre|
  {
    var all := pre + h + rest;
    var j := Index(all, h);
    OccursAtSeam(h, pre, rest);
    assert all[..|pre|] == pre;
    InsidePrefix(all, pre, h, j);
    if j < |pre| { OverlapOnlyAtNewline(h, pre, rest, j); }
  }

  /** The text ends in the header line without its last newline. */
  predicate EndsCutOff(h: string, pre: string)
    requires |h| > 0
  {
    |h| - 1 <= |pre| && pre[|pre| - (|h| - 1)..] == h[..|h| - 1]
  }

  /** When the plan has a section, the text before it does not end in a cut-off header line: that
      line and the section's newline would have been an earlier header. */
  lemma NoSeamInsidePlan(h: string, plan: string)
    requires IsHeaderLine(h) && HasSection(h, plan) && |h| - 1 <= |Before(h, plan)|
    ensures var pre := Before(h, plan); pre[|pre| - (|h| - 1)..] != h[..|h| - 1]
  {
    var idx := Index(plan, h);
    var pre := plan[..idx];
    assert plan == pre + h + plan[idx + |h|..];
    OccursAtSeam(h, pre, plan[idx + |h|..]);
  }

  lemma FragileIsCutOff(h: string, plan: string)
    requires IsHeaderLine(h)
    ensures Fragile(h, plan) <==> EndsCutOff(h, Before(h, plan))
  {
    if HasSection(h, plan) && |h| - 1 <= |Before(h, plan)| { NoSeamInsidePlan(h, plan); }
  }

  lemma BeforeOfRewritten(h: string, pre: string, rest: string)
    requires IsHeaderLine(h) && forall i :: !OccursAt(pre, h, i)
    ensures HasSection(h, pre + h + rest) && (Before(h, pre + h + rest) == pre <==> !EndsCutOff(h, pre))
  {
    FirstHeader(h, pre, rest);
    var all := pre + h + rest;
    assert all[..|pre|] == pre;
  }

  /** One rewrite leaves the text before the section as it was exactly for the plans that are not
      fragile; a fragile plan loses its header line at the following rewrite. */
  lemma RewriteKeepsPrefix(h: string, plan: string, body: string)
    requires IsHeaderLine(h)
    ensures var next := Rewrite(h, plan, body);
            HasSection(h, next) && (Before(h, next) == Before(h, plan) <==> !Fragile(h, plan))
  {
    forall i
      ensures !OccursAt(Before(h, plan), h, i)
    {
      BeforeIsHeaderFree(h, plan, i);
    }
    BeforeOfRewritten(h, Before(h, plan), body);
    FragileIsCutOff(h, plan);
  }

  /** The plan that is just a cut-off header line is fragile. */
  lemma CutOffHeaderIsFragile(h: string)
    requires IsHeaderLine(h)
    ensures Fragile(h, h[..|h| - 1])
  {
    var plan := h[..|h| - 1];
    assert plan[|plan| - |plan|..] == plan;
  }

  function Rewrites(h: string, plan: string, bodies: seq<string>): string {
    if bodies == [] then plan else Rewrite(h, Rewrites(h, plan, bodies[..|bodies| - 1]), bodies[|bodies| - 1])
  }

  lemma NextRewrite(h: string, plan: string, bodies: seq<string>, i: nat)
    requires i < |bodies|
    ensures Rewrites(h, plan, bodies[..i + 1]) == Rewrite(h, Rewrites(h, plan, bodies[..i]), bodies[i])
  {
    assert bodies[..i + 1][..i] == bodies[..i];
  }

  lemma {:induction false} PrefixAfter(h: string, plan: string, bodies: seq<string>, i: nat)
    requires IsHeaderLine(h) && 0 < i <= |bodies|
    ensures HasSection(h, Rewrites(h, plan, bodies[..i]))
    ensures Before(h, Rewrites(h, plan, bodies[..i])) == Before(h, Rewrites(h, plan, bodies[..1]))
    decreases i
  {
    NextRewrite(h, plan, bodies, i - 1);
    RewriteKeepsPrefix(h, Rewrites(h, plan, bodies[..i - 1]), bodies[i - 1]);
    if i > 1 { PrefixAfter(h, plan, bodies, i - 1); }
  }

  /** From the second rewrite on nothing before the section changes any more. */
  lemma LaterRewritesKeepPrefix(h: string, plan: string, bodies: seq<string>)
    requires IsHeaderLine(h) && bodies != []
    ensures HasSection(h, Rewrites(h, plan, bodies))
    ensures Before(h, Rewrites(h, plan, bodies)) == Before(h, Rewrites(h, plan, bodies[..1]))
  {
    PrefixAfter(h, plan, bodies, |bodies|);
    assert bodies[..|bodies|] == bodies;
  }

  /** Any number of rewrites leaves the text before the section unchanged, exactly for the plans
      that are not fragile. */
  lemma PrefixSurvives(h: string, plan: string, bodies: seq<string>)
    requires IsHeaderLine(h) && bodies != []
    ensures Before(h, Rewrites(h, plan, bodies)) == Before(h, plan) <==> !Fragile(h, plan)
  {
    LaterRewritesKeepPrefix(h, plan, bodies);
    assert bodies[..1] == [bodies[0]] && bodies[..1][..0] == [];
    assert Rewrites(h, plan, []) == plan;
    RewriteKeepsPrefix(h, plan, bodies[0]);
  }

  /** Only the last rewrite shows. */
  lemma LastRewriteWins(h: string, plan: string, bodies: seq<string>)
    requires IsHeaderLine(h) && bodies != [] && !Fragile(h, plan)
    ensures Rewrites(h, plan, bodies) == Before(h, plan) + h + bodies[|bodies| - 1]
  {
    var n := |bodies| - 1;
    if n > 0 { PrefixSurvives(h, plan, bodies[..n]); }
  }

  /** In particular for the master plan's own header. */
  lemma PlanPrefixSurvives(plan: string, bodies: seq<string>)
    requires bodies != []
    ensures Before(HEADER, Rewrites(HEADER, plan, bodies)) == Before(HEADER, plan) <==> !Fragile(HEADER, plan)
  {
    WisdomHeaderIsHeaderLine();
    PrefixSurvives(HEADER, plan, bodies);
  }
}
