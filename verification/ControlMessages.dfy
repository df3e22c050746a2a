/** Leading background-task envelopes: the depth-counting scanner and the stripping loop. */
module ControlMessages {
  import opened Wrappers
  import opened JsText

  /** An open and a close tag. */
  datatype Tags = Tags(open: string, close: string)

  const TASK_NOTIFICATION := Tags("<task-notification>", "</task-notification>")

  /** `<` starts each tag and occurs nowhere else in it; the second character tells the two apart. */
  ghost predicate TagPair(t: Tags) {
    && |t.open| > 1 && |t.close| > 1 && t.open[1] != t.close[1]
    && t.open[0] == '<' && (forall j :: 1 <= j < |t.open| ==> t.open[j] != '<')
    && t.close[0] == '<' && (forall j :: 1 <= j < |t.close| ==> t.close[j] != '<')
  }

  lemma TaskNotificationIsTagPair()
    ensures TagPair(Tags("<task-notification>", "</task-notification>"))
    ensures TASK_NOTIFICATION == Tags("<task-notification>", "</task-notification>")
  {
  }

  // ---------- Counting tags ----------

  /** How many occurrences of `tag` lie inside the first `k` characters of `text`. */
  function Count(tag: string, text: string, k: nat): nat
    requires tag != "" && k <= |text|
  {
    if k < |tag| then 0
    else Count(tag, text, k - 1) + (if At(text, tag, k - |tag|) then 1 else 0)
  }

  /** Open tags minus close tags in the first `k` characters. */
  function Balance(t: Tags, text: string, k: nat): int
    requires TagPair(t) && k <= |text|
  {
    Count(t.open, text, k) - Count(t.close, text, k)
  }

  predicate IsTag(t: Tags, tag: string) {
    tag == t.open || tag == t.close
  }

  /** No tag occurrence straddles position `p`. */
  ghost predicate Clean(t: Tags, text: string, p: nat) {
    forall tag, i: nat :: IsTag(t, tag) && At(text, tag, i) ==> i + |tag| <= p || p <= i
  }

  lemma TagInterior(t: Tags, text: string, tag: string, i: nat)
    requires TagPair(t)
    requires IsTag(t, tag) && At(text, tag, i)
    ensures forall p :: i < p < i + |tag| ==> text[p] != '<'
  {
    forall p | i < p < i + |tag| ensures text[p] != '<' {
      assert text[i + (p - i)] == tag[p - i];
    }
  }

  /** Occurrences of the two tags never overlap each other or themselves. */
  lemma NoOverlap(t: Tags, text: string, tag: string, i: nat, tag': string, j: nat)
    requires TagPair(t)
    requires IsTag(t, tag) && IsTag(t, tag') && At(text, tag, i) && At(text, tag', j)
    requires i <= j
    ensures if i == j then tag == tag' else i + |tag| <= j
  {
    if i == j {
      assert text[i + 1] == tag[1];
      assert text[i + 1] == tag'[1];
    } else {
      assert text[j] == tag'[0];
      TagInterior(t, text, tag, i);
    }
  }

  /** Both ends of an occurrence are clean. */
  lemma TagEndsClean(t: Tags, text: string, tag: string, i: nat)
    requires TagPair(t)
    requires IsTag(t, tag) && At(text, tag, i)
    ensures Clean(t, text, i) && Clean(t, text, i + |tag|)
  {
    forall tag', j: nat | IsTag(t, tag') && At(text, tag', j)
      ensures j + |tag'| <= i || i <= j
      ensures j + |tag'| <= i + |tag| || i + |tag| <= j
    {
      if i <= j { NoOverlap(t, text, tag, i, tag', j); } else { NoOverlap(t, text, tag', j, tag, i); }
    }
  }

  lemma AngleClean(t: Tags, text: string, p: nat)
    requires TagPair(t)
    requires p < |text| && text[p] == '<'
    ensures Clean(t, text, p)
  {
    forall tag, i: nat | IsTag(t, tag) && At(text, tag, i)
      ensures i + |tag| <= p || p <= i
    {
      TagInterior(t, text, tag, i);
    }
  }

  lemma {:induction false} CountFlat(t: Tags, tag: string, text: string, a: nat, b: nat)
    requires TagPair(t)
    requires IsTag(t, tag) && a <= b <= |text|
    requires forall i: nat | a < i + |tag| <= b :: !At(text, tag, i)
    ensures Count(tag, text, b) == Count(tag, text, a)
  {
    if a < b {
      CountFlat(t, tag, text, a, b - 1);
      if |tag| <= b {
        var i: nat := b - |tag|;
        assert !At(text, tag, i);
      }
    }
  }

  lemma AtPrefix(tag: string, a: string, b: string, i: nat)
    requires i + |tag| <= |a|
    ensures At(a + b, tag, i) <==> At(a, tag, i)
  {
  }

  lemma {:induction false} CountPrefix(t: Tags, tag: string, a: string, b: string, k: nat)
    requires TagPair(t)
    requires IsTag(t, tag) && k <= |a|
    ensures Count(tag, a + b, k) == Count(tag, a, k)
  {
    if |tag| <= k {
      CountPrefix(t, tag, a, b, k - 1);
      AtPrefix(tag, a, b, k - |tag|);
    }
  }

  lemma AtSuffix(text: string, p: nat, tag: string, i: nat)
    requires p <= |text|
    ensures At(text[p..], tag, i) <==> At(text, tag, p + i)
  {
    var i' := p + i;
    assert At(text, tag, i') ==> forall j | 0 <= j < |tag| :: text[i' + j] == tag[j];
  }

  lemma CountStep(t: Tags, tag: string, text: string, k: nat)
    requires TagPair(t)
    requires IsTag(t, tag) && 0 < k <= |text|
    ensures Count(tag, text, k) == Count(tag, text, k - 1) +
            if |tag| <= k && At(text, tag, k - |tag|) then 1 else 0
  {
  }

  /** Past a clean cut, counting continues on the suffix. */
  lemma {:induction false} CountSuffix(t: Tags, tag: string, text: string, p: nat, k: nat)
    requires TagPair(t)
    requires IsTag(t, tag) && p <= k <= |text| && Clean(t, text, p)
    ensures Count(tag, text, k) == Count(tag, text, p) + Count(tag, text[p..], k - p)
  {
    if p < k {
      CountSuffix(t, tag, text, p, k - 1);
      SameStep(t, tag, text, p, k);
    }
  }

  lemma SameStep(t: Tags, tag: string, text: string, p: nat, k: nat)
    requires TagPair(t)
    requires IsTag(t, tag) && p < k <= |text| && Clean(t, text, p)
    ensures Count(tag, text, k) - Count(tag, text, k - 1) == Count(tag, text[p..], k - p) - Count(tag, text[p..], k - p - 1)
  {
    CountStep(t, tag, text, k);
    CountStep(t, tag, text[p..], k - p);
    SameTagEnd(t, tag, text, p, k);
  }

  /** A tag ends at `k` in the text exactly if it ends there in the suffix: none straddles the cut. */
  lemma SameTagEnd(t: Tags, tag: string, text: string, p: nat, k: nat)
    requires TagPair(t)
    requires IsTag(t, tag) && p < k <= |text| && Clean(t, text, p)
    ensures (|tag| <= k && At(text, tag, k - |tag|)) <==> (|tag| <= k - p && At(text[p..], tag, k - p - |tag|))
  {
    if |tag| <= k - p {
      AtSuffix(text, p, tag, k - p - |tag|);
    }
  }

  lemma BalanceSuffix(t: Tags, text: string, p: nat, k: nat)
    requires TagPair(t)
    requires p <= k <= |text| && Clean(t, text, p)
    ensures Balance(t, text, k) == Balance(t, text, p) + Balance(t, text[p..], k - p)
  {
    CountSuffix(t, t.open, text, p, k);
    CountSuffix(t, t.close, text, p, k);
  }

  /** Up to the end of the first tag occurrence the balance is 0; there it takes its first step. */
  lemma FirstTag(t: Tags, text: string, tag: string, i: nat, k: nat)
    requires TagPair(t)
    requires IsTag(t, tag) && At(text, tag, i) && k <= i + |tag|
    requires forall tag', j: nat :: IsTag(t, tag') && j < i ==> !At(text, tag', j)
    ensures Balance(t, text, k) == if k < i + |tag| then 0 else if tag == t.open then 1 else -1
  {
    forall tag', j: nat | IsTag(t, tag') && At(text, tag', j)
      ensures (j == i && tag' == tag) || i + |tag| < j + |tag'|
    {
      NoOverlap(t, text, tag, i, tag', j);
    }
    var e := i + |tag|;
    forall tag' | IsTag(t, tag')
      ensures k < e ==> Count(tag', text, k) == 0
      ensures Count(tag', text, e) == if tag' == tag then 1 else 0
    {
      CountFlat(t, tag', text, 0, e - 1);
      if k < e { CountFlat(t, tag', text, 0, k); }
      assert Count(tag', text, 0) == 0;
      if |tag'| <= e {
        assert tag' != tag ==> !At(text, tag', e - |tag'|);
      }
    }
  }

  // ---------- The scanner ----------

  /** The first position at or after `k` where the balance is zero. */
  function FirstZero(t: Tags, text: string, k: nat): Option<nat>
    requires TagPair(t)
    decreases |text| - k
  {
    if k > |text| then None
    else if Balance(t, text, k) == 0 then Some(k)
    else FirstZero(t, text, k + 1)
  }

  lemma {:induction false} FirstZeroFound(t: Tags, text: string, k: nat, end: nat)
    requires TagPair(t) && k <= end <= |text| && Balance(t, text, end) == 0
    requires forall j :: k <= j < end ==> Balance(t, text, j) != 0
    ensures FirstZero(t, text, k) == Some(end)
    decreases end - k
  {
    if k < end { FirstZeroFound(t, text, k + 1, end); }
  }

  lemma {:induction false} FirstZeroNone(t: Tags, text: string, k: nat)
    requires TagPair(t)
    requires forall j :: k <= j <= |text| ==> Balance(t, text, j) != 0
    ensures FirstZero(t, text, k) == None
    decreases |text| - k
  {
    if k <= |text| { FirstZeroNone(t, text, k + 1); }
  }

  lemma {:induction false} FirstZeroIsFirst(t: Tags, text: string, k: nat)
    requires TagPair(t)
    ensures match FirstZero(t, text, k)
            case Some(end) => k <= end <= |text| && Balance(t, text, end) == 0
                              && forall j :: k <= j < end ==> Balance(t, text, j) != 0
            case None => forall j :: k <= j <= |text| ==> Balance(t, text, j) != 0
    decreases |text| - k
  {
    if k <= |text| && Balance(t, text, k) != 0 { FirstZeroIsFirst(t, text, k + 1); }
  }

  /** The end of the shortest balanced prefix of at least one open tag, for a text that starts with one. */
  function LeadingEnd(t: Tags, text: string): Option<nat>
    requires TagPair(t)
  {
    if At(text, t.open, 0) then FirstZero(t, text, |t.open|) else None
  }

  /**
   * The scanner's specification: `end` is the length of the shortest prefix, at least one open tag long,
   * with as many close tags as open tags; there is no result exactly when no such prefix exists.
   */
  lemma LeadingEndShortest(t: Tags, text: string, end: nat)
    requires TagPair(t)
    ensures LeadingEnd(t, text) == Some(end) <==>
            && At(text, t.open, 0) && |t.open| <= end <= |text| && Balance(t, text, end) == 0
            && forall k :: |t.open| <= k < end ==> Balance(t, text, k) != 0
    ensures LeadingEnd(t, text) == None <==>
            At(text, t.open, 0) ==> forall k :: |t.open| <= k <= |text| ==> Balance(t, text, k) != 0
  {
    FirstZeroIsFirst(t, text, |t.open|);
  }

  /** The balance stays at `depth` from a clean cursor up to (not including) the end of the next tag. */
  lemma NextTag(t: Tags, text: string, cursor: nat, tag: string, i: nat, k: nat)
    requires TagPair(t)
    requires cursor <= |text| && Clean(t, text, cursor)
    requires IsTag(t, tag) && cursor <= i && At(text, tag, i) && cursor <= k <= i + |tag|
    requires forall tag', j: nat :: IsTag(t, tag') && cursor <= j < i ==> !At(text, tag', j)
    ensures Balance(t, text, k) == Balance(t, text, cursor) +
            if k < i + |tag| then 0 else if tag == t.open then 1 else -1
  {
    BalanceSuffix(t, text, cursor, k);
    forall tag', j: nat | IsTag(t, tag') ensures At(text[cursor..], tag', j) <==> At(text, tag', cursor + j) {
      AtSuffix(text, cursor, tag', j);
    }
    FirstTag(t, text[cursor..], tag, i - cursor, k - cursor);
  }

  /** One scanner step: the next tag after a clean cursor moves the balance and leaves a clean cursor. */
  lemma ScanStep(t: Tags, text: string, cursor: nat, tag: string, i: nat)
    requires TagPair(t)
    requires cursor <= |text| && Clean(t, text, cursor)
    requires IsTag(t, tag) && cursor <= i && At(text, tag, i)
    requires forall tag', j: nat :: IsTag(t, tag') && cursor <= j < i ==> !At(text, tag', j)
    ensures Clean(t, text, i + |tag|)
    ensures forall k :: cursor <= k < i + |tag| ==> Balance(t, text, k) == Balance(t, text, cursor)
    ensures Balance(t, text, i + |tag|) == Balance(t, text, cursor) + if tag == t.open then 1 else -1
  {
    TagEndsClean(t, text, tag, i);
    NextTag(t, text, cursor, tag, i, i + |tag|);
    forall k | cursor <= k < i + |tag| ensures Balance(t, text, k) == Balance(t, text, cursor) {
      NextTag(t, text, cursor, tag, i, k);
    }
  }

  lemma {:induction false} NoMoreClosesAt(t: Tags, text: string, cursor: nat, k: nat)
    requires TagPair(t)
    requires cursor <= k <= |text| && Clean(t, text, cursor)
    requires forall j: nat :: cursor <= j ==> !At(text, t.close, j)
    ensures Balance(t, text, k) >= Balance(t, text, cursor)
  {
    if cursor < k {
      NoMoreClosesAt(t, text, cursor, k - 1);
      CountStep(t, t.open, text, k);
      CountStep(t, t.close, text, k);
    }
  }

  lemma NoMoreCloses(t: Tags, text: string, cursor: nat)
    requires TagPair(t)
    requires cursor <= |text| && Clean(t, text, cursor)
    requires forall j: nat :: cursor <= j ==> !At(text, t.close, j)
    ensures forall k :: cursor <= k <= |text| ==> Balance(t, text, k) >= Balance(t, text, cursor)
  {
    forall k | cursor <= k <= |text| ensures Balance(t, text, k) >= Balance(t, text, cursor) {
      NoMoreClosesAt(t, text, cursor, k);
    }
  }

  /** What the scanner knows at `cursor`: tags up to it are counted in `depth`, which was never 0 before. */
  ghost predicate Scanned(t: Tags, text: string, cursor: nat, depth: nat)
    requires TagPair(t)
  {
    && |t.open| <= cursor <= |text| && Clean(t, text, cursor) && Balance(t, text, cursor) == depth
    && forall k :: |t.open| <= k < cursor ==> Balance(t, text, k) > 0
  }

  lemma ScanStart(t: Tags, text: string)
    requires TagPair(t)
    requires At(text, t.open, 0)
    ensures Scanned(t, text, |t.open|, 1)
  {
    TagEndsClean(t, text, t.open, 0);
    FirstTag(t, text, t.open, 0, |t.open|);
  }

  lemma ScanOpen(t: Tags, text: string, cursor: nat, depth: nat, i: nat)
    requires TagPair(t)
    requires Scanned(t, text, cursor, depth) && depth > 0
    requires cursor <= i && At(text, t.open, i)
    requires forall j: nat :: cursor <= j < i ==> !At(text, t.open, j)
    requires forall j: nat :: cursor <= j < i ==> !At(text, t.close, j)
    ensures Scanned(t, text, i + |t.open|, depth + 1)
  {
    ScanStep(t, text, cursor, t.open, i);
  }

  lemma ScanClose(t: Tags, text: string, cursor: nat, depth: nat, i: nat)
    requires TagPair(t)
    requires Scanned(t, text, cursor, depth) && depth > 0
    requires cursor <= i && At(text, t.close, i)
    requires forall j: nat :: cursor <= j < i ==> !At(text, t.open, j)
    requires forall j: nat :: cursor <= j < i ==> !At(text, t.close, j)
    ensures Scanned(t, text, i + |t.close|, depth - 1)
  {
    ScanStep(t, text, cursor, t.close, i);
  }

  lemma ScanClosed(t: Tags, text: string, cursor: nat)
    requires TagPair(t)
    requires Scanned(t, text, cursor, 0)
    ensures At(text, t.open, 0) ==> LeadingEnd(t, text) == Some(cursor)
  {
    FirstZeroFound(t, text, |t.open|, cursor);
  }

  lemma ScanUnclosed(t: Tags, text: string, cursor: nat, depth: nat)
    requires TagPair(t)
    requires Scanned(t, text, cursor, depth) && depth > 0
    requires forall j: nat :: cursor <= j ==> !At(text, t.close, j)
    ensures LeadingEnd(t, text) == None
  {
    NoMoreCloses(t, text, cursor);
    FirstZeroNone(t, text, |t.open|);
  }

  method LeadingTaskNotificationEnd(t: Tags, text: string) returns (end: Option<nat>)
    requires TagPair(t)
    ensures end == LeadingEnd(t, text)
  {
    if !At(text, t.open, 0) {
      return None;
    }
    var depth := 1;
    var cursor := |t.open|;
    ScanStart(t, text);
    while depth > 0
      invariant 0 <= depth && |t.open| <= cursor <= |text|
      invariant Scanned(t, text, cursor, depth)
      decreases |text| - cursor
    {
      var nextOpen := IndexOf(text, t.open, cursor);
      var nextClose := IndexOf(text, t.close, cursor);
      if nextClose.None? {
        ScanUnclosed(t, text, cursor, depth);
        return None;
      }
      if nextOpen.Some? && nextOpen.value < nextClose.value {
        ScanOpen(t, text, cursor, depth, nextOpen.value);
        depth := depth + 1;
        cursor := nextOpen.value + |t.open|;
        continue;
      }
      ScanClose(t, text, cursor, depth, nextClose.value);
      depth := depth - 1;
      cursor := nextClose.value + |t.close|;
    }
    ScanClosed(t, text, cursor);
    return Some(cursor);
  }

  // ---------- The stripping loop ----------

  lemma LeadingEndBounds(t: Tags, text: string)
    requires TagPair(t)
    ensures LeadingEnd(t, text).Some? ==> |t.open| <= LeadingEnd(t, text).value <= |text|
  {
    FirstZeroIsFirst(t, text, |t.open|);
  }

  /** Drop complete envelopes, and the white space after each, from a trimmed text. */
  function DropEnvelopes(t: Tags, text: string): string
    requires TagPair(t)
    decreases |text|
  {
    match LeadingEnd(t, text)
    case None => text
    case Some(end) =>
      LeadingEndBounds(t, text);
      DropEnvelopes(t, TrimStart(text[end..]))
  }

  /** The result of stripping: a text without a complete leading envelope is left as it is, white space included. */
  function Strip(t: Tags, text: string): string
    requires TagPair(t)
  {
    var trimmed := TrimStart(text);
    if LeadingEnd(t, trimmed).None? then text else DropEnvelopes(t, trimmed)
  }

  method StripLeadingTaskNotificationWrappers(text: string) returns (result: string)
    ensures TagPair(Tags("<task-notification>", "</task-notification>"))
    ensures result == Strip(Tags("<task-notification>", "</task-notification>"), text)
  {
    TaskNotificationIsTagPair();
    var t := TASK_NOTIFICATION;
    var remainder := TrimStart(text);
    var stripped := false;
    while At(remainder, t.open, 0)
      invariant DropEnvelopes(t, TrimStart(text)) == DropEnvelopes(t, remainder)
      invariant stripped ==> LeadingEnd(t, TrimStart(text)).Some?
      invariant !stripped ==> remainder == TrimStart(text)
      decreases |remainder|
    {
      var wrapperEnd := LeadingTaskNotificationEnd(t, remainder);
      if wrapperEnd.None? {
        break;
      }
      LeadingEndBounds(t, remainder);
      stripped := true;
      remainder := TrimStart(remainder[wrapperEnd.value..]);
    }
    return if stripped then remainder else text;
  }
}
