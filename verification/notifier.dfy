/**
 * The message send_discord_notification posts: one embed whose fields list every course of
 * the snapshot with its score. The HTTP post itself and the timestamp footer are not modelled.
 */
module Notifier {
  import opened Snapshots

  datatype Field = Field(name: string, value: string, inline: bool)

  datatype Payload = Payload(username: string, title: string, color: int, fields: seq<Field>)

  const BotName := "中華大學成績小幫手"
  const EmbedColor := 5763719

  /** The field shown for one course: a book emoji and the course name, then the score. */
  function CourseField(course: string, score: string): (f: Field) {
    Field("\U{1F4D8} " + course, "成績：**" + score + "** 分", false)
  }

  /** A field determines its course and its score. */
  lemma CourseFieldInjective(c1: string, s1: string, c2: string, s2: string)
    requires CourseField(c1, s1) == CourseField(c2, s2)
    ensures c1 == c2 && s1 == s2
  {
    var f := CourseField(c1, s1);
    assert c1 == f.name[2..] && c2 == f.name[2..];
    assert |f.value| == 5 + |s1| + 4 == 5 + |s2| + 4;
    assert |s1| == |s2|;
    assert s1 == f.value[5..5 + |s1|] && s2 == f.value[5..5 + |s2|];
  }

  /** The field list, one field per dict item in iteration (first-insertion) order. */
  function Fields(snap: Snapshot): (r: seq<Field>)
    requires snap.Valid()
    ensures |r| == |snap.scores|
  {
    SizeIsOrderLength(snap);
    seq(|snap.order|, i requires 0 <= i < |snap.order| => CourseField(snap.order[i], snap.scores[snap.order[i]]))
  }

  /** The message for one account and snapshot; the footer's timestamp is left out. */
  function Notification(stuId: string, snap: Snapshot): (p: Payload)
    requires snap.Valid()
  {
    Payload(BotName, "\U{1F195} 帳號 " + stuId + " 偵測到新成績！", EmbedColor, Fields(snap))
  }

  /** Field i shows the i-th course in the dict's insertion order, with that course's score. */
  lemma FieldsFollowOrder(snap: Snapshot, i: nat)
    requires snap.Valid() && i < |Fields(snap)|
    ensures snap.order[i] in snap.scores
    ensures Fields(snap)[i] == CourseField(snap.order[i], snap.scores[snap.order[i]])
  {
    SizeIsOrderLength(snap);
    assert snap.order[i] in set x | x in snap.order;
  }

  /** Every course of the snapshot appears among the fields with its score. */
  lemma FieldsCoverSnapshot(snap: Snapshot, course: string)
    requires snap.Valid() && course in snap.scores
    ensures exists i :: 0 <= i < |Fields(snap)| && Fields(snap)[i] == CourseField(course, snap.scores[course])
  {
    SizeIsOrderLength(snap);
    assert course in set x | x in snap.order;
    var i :| 0 <= i < |snap.order| && snap.order[i] == course;
    FieldsFollowOrder(snap, i);
  }

  /** No course is listed twice: the fields' names are pairwise distinct. */
  lemma FieldNamesDistinct(snap: Snapshot, i: nat, j: nat)
    requires snap.Valid() && i < j < |Fields(snap)|
    ensures Fields(snap)[i].name != Fields(snap)[j].name
  {
    FieldsFollowOrder(snap, i);
    FieldsFollowOrder(snap, j);
    assert Fields(snap)[i].name[2..] == snap.order[i];
    assert Fields(snap)[j].name[2..] == snap.order[j];
  }
}
