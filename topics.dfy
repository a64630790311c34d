/** How `index` recognises existing topics: each listed ARN is keyed by its
    last colon-separated segment. */
module Topics {
  import opened Strings

  /** `arn.rsplit(':')[-1]`: a colon-free piece of the ARN. */
  function LastSegment(arn: string): (seg: string)
    ensures ':' !in seg && |seg| <= |arn|
  {
    var parts := Split(arn, ':');
    if |parts| > 1 then
      JoinLast(parts, ':');
      parts[|parts| - 1]
    else
      parts[0]
  }

  /** The last segment is the longest colon-free suffix of the ARN: it ends
      the ARN and is either all of it or preceded by a colon. */
  lemma LastSegmentIsFinalSuffix(arn: string)
    ensures var seg := LastSegment(arn);
      && arn[|arn| - |seg|..] == seg
      && (|seg| == |arn| || arn[|arn| - |seg| - 1] == ':')
  {
    var parts := Split(arn, ':');
    if |parts| > 1 {
      JoinLast(parts, ':');
    }
  }

  /** Whatever precedes the last colon, the key is what follows it. */
  lemma LastSegmentAfterColon(prefix: string, seg: string)
    requires ':' !in seg
    ensures LastSegment(prefix + ":" + seg) == seg
  {
    var parts := Split(prefix, ':') + [seg];
    assert parts[..|parts| - 1] == Split(prefix, ':');
    JoinLast(parts, ':');
    SplitJoin(parts, ':');
  }

  /** An ARN without a colon is its own key. */
  lemma ColonFreeArnIsOwnKey(arn: string)
    requires ':' !in arn
    ensures LastSegment(arn) == arn
  {
  }

  /** The dict comprehension `{t.rsplit(':')[-1]: t for t in arns}`, one
      entry per listed ARN in listing order: it has at most one key per
      listed ARN, and the last listed ARN always owns its key. */
  function TopicMap(arns: seq<string>): (m: map<string, string>)
    ensures |m| <= |arns|
    ensures |arns| > 0 ==> LastSegment(arns[|arns| - 1]) in m && m[LastSegment(arns[|arns| - 1])] == arns[|arns| - 1]
  {
    if |arns| == 0 then map[]
    else TopicMap(arns[..|arns| - 1])[LastSegment(arns[|arns| - 1]) := arns[|arns| - 1]]
  }

  /** The keys of the map are exactly the last segments of the listed ARNs. */
  lemma {:induction false} TopicMapKeys(arns: seq<string>, key: string)
    ensures key in TopicMap(arns) <==> exists i :: 0 <= i < |arns| && LastSegment(arns[i]) == key
  {
    if |arns| > 0 {
      var init := arns[..|arns| - 1];
      var last := arns[|arns| - 1];
      assert TopicMap(arns) == TopicMap(init)[LastSegment(last) := last];
      TopicMapKeys(init, key);
      if key in TopicMap(arns) {
        if key != LastSegment(last) {
          var i :| 0 <= i < |init| && LastSegment(init[i]) == key;
          assert arns[i] == init[i];
        }
      } else {
        forall i | 0 <= i < |arns|
          ensures LastSegment(arns[i]) != key
        {
          if i < |init| {
            assert arns[i] == init[i];
          }
        }
      }
    }
  }

  /** Each key maps to the LAST listed ARN with that segment: a later entry
      overwrites an earlier one. */
  lemma {:induction false} TopicMapLaterWins(arns: seq<string>, key: string)
    requires key in TopicMap(arns)
    ensures exists i ::
      && 0 <= i < |arns| && LastSegment(arns[i]) == key && TopicMap(arns)[key] == arns[i]
      && forall j :: i < j < |arns| ==> LastSegment(arns[j]) != key
  {
    var init := arns[..|arns| - 1];
    var last := arns[|arns| - 1];
    assert TopicMap(arns) == TopicMap(init)[LastSegment(last) := last];
    if LastSegment(last) == key {
      var i := |arns| - 1;
      assert LastSegment(arns[i]) == key && TopicMap(arns)[key] == arns[i];
    } else {
      assert key in TopicMap(init) && TopicMap(arns)[key] == TopicMap(init)[key];
      TopicMapLaterWins(init, key);
      var i :|
        && 0 <= i < |init| && LastSegment(init[i]) == key && TopicMap(init)[key] == init[i]
        && forall j :: i < j < |init| ==> LastSegment(init[j]) != key;
      assert arns[i] == init[i];
      forall j | i < j < |arns|
        ensures LastSegment(arns[j]) != key
      {
        if j < |init| {
          assert arns[j] == init[j] && LastSegment(init[j]) != key;
        } else {
          assert arns[j] == last;
        }
      }
    }
  }

  /** The comprehension as the loop it runs: one entry per listed ARN, in
      listing order. */
  method BuildTopicMap(arns: seq<string>) returns (m: map<string, string>)
    ensures m == TopicMap(arns)
  {
    m := map[];
    for i := 0 to |arns|
      invariant m == TopicMap(arns[..i])
    {
      assert arns[..i + 1][..i] == arns[..i];
      m := m[LastSegment(arns[i]) := arns[i]];
    }
    assert arns[..|arns|] == arns;
  }
}
