/** The grammar of task-notification envelopes, and stripping as its inverse. */
module TaskEnvelopes {
  import opened Wrappers
  import opened JsText
  import opened ControlMessages

  /** What stands between an open tag and its close tag: text, with complete envelopes inside it. */
  datatype Body =
    | Tail(text: string)
    | Nest(text: string, inner: Body, rest: Body)

  /** Envelopes with white space before, between and after them. */
  datatype Forest =
    | Done(space: string)
    | Envelope(space: string, body: Body, rest: Forest)

  ghost predicate Untagged(t: Tags, text: string) {
    forall tag, i: nat :: IsTag(t, tag) ==> !At(text, tag, i)
  }

  ghost predicate IsBody(t: Tags, b: Body) {
    && Untagged(t, b.text)
    && (b.Nest? ==> IsBody(t, b.inner) && IsBody(t, b.rest))
  }

  ghost predicate IsForest(t: Tags, f: Forest) {
    && Blank(f.space)
    && (f.Envelope? ==> IsBody(t, f.body) && IsForest(t, f.rest))
  }

  function PrintBody(t: Tags, b: Body): string {
    match b
    case Tail(text) => text
    case Nest(text, inner, rest) => text + (t.open + (PrintBody(t, inner) + (t.close + PrintBody(t, rest))))
  }

  function PrintForest(t: Tags, f: Forest): string {
    match f
    case Done(space) => space
    case Envelope(space, body, rest) =>
      space + (t.open + (PrintBody(t, body) + (t.close + PrintForest(t, rest))))
  }

  // ---------- Printing, then scanning ----------

  /** An untagged text in front of `v` contributes nothing to the balance. */
  lemma TextFront(t: Tags, text: string, v: string, k: nat)
    requires TagPair(t) && Untagged(t, text)
    requires k <= |text|
    ensures Balance(t, text + v, k) == 0
  {
    CountPrefix(t, t.open, text, v, k);
    CountPrefix(t, t.close, text, v, k);
    forall tag | IsTag(t, tag) ensures Count(tag, text, k) == 0 {
      CountFlat(t, tag, text, 0, k);
    }
  }

  /** Cut `a + v` after `a`, where `v` starts with a tag: balances add up. */
  lemma Cut(t: Tags, a: string, v: string, k: nat)
    requires TagPair(t) && v != "" && v[0] == '<' && k <= |v|
    ensures Balance(t, a + v, |a| + k) == Balance(t, a + v, |a|) + Balance(t, v, k)
  {
    assert (a + v)[|a|] == '<' && (a + v)[|a|..] == v;
    AngleClean(t, a + v, |a|);
    BalanceSuffix(t, a + v, |a|, |a| + k);
  }

  /** A tag in front of `v`: the balance is 0 inside the tag, and from then on `v`'s, moved by one. */
  lemma TagFront(t: Tags, tag: string, v: string, k: nat)
    requires TagPair(t) && IsTag(t, tag) && k <= |tag| + |v|
    ensures Balance(t, tag + v, k) ==
            if k < |tag| then 0 else (if tag == t.open then 1 else -1) + Balance(t, v, k - |tag|)
  {
    assert At(tag + v, tag, 0);
    if k < |tag| {
      FirstTag(t, tag + v, tag, 0, k);
    } else {
      FirstTag(t, tag + v, tag, 0, |tag|);
      TagEndsClean(t, tag + v, tag, 0);
      assert (tag + v)[|tag|..] == v;
      BalanceSuffix(t, tag + v, |tag|, k);
    }
  }

  /** A printed body never takes the balance below zero and ends at zero. */
  lemma {:induction false} BodyBalance(t: Tags, b: Body, v: string, k: nat)
    requires TagPair(t) && IsBody(t, b) && v != "" && v[0] == '<'
    requires k <= |PrintBody(t, b)|
    ensures var x := Balance(t, PrintBody(t, b) + v, k);
            x >= 0 && (k == |PrintBody(t, b)| ==> x == 0)
    decreases b, 2
  {
    match b
    case Tail(text) =>
      TextFront(t, text, v, k);
    case Nest(text, inner, rest) =>
      var nest := t.open + (PrintBody(t, inner) + (t.close + (PrintBody(t, rest) + v)));
      Reassociate(text, t.open, PrintBody(t, inner), t.close, PrintBody(t, rest), v);
      assert PrintBody(t, b) + v == text + nest;
      if |text| <= k {
        NestBalance(t, b, v, k - |text|);
      }
      TextThenTag(t, text, nest, k);
  }

  /** The balance in front of a tag is 0; from there on it is that of what follows. */
  lemma TextThenTag(t: Tags, text: string, v: string, k: nat)
    requires TagPair(t) && Untagged(t, text) && v != "" && v[0] == '<' && k <= |text| + |v|
    ensures Balance(t, text + v, k) == if k < |text| then 0 else Balance(t, v, k - |text|)
  {
    if k < |text| {
      TextFront(t, text, v, k);
    } else {
      TextFront(t, text, v, |text|);
      Cut(t, text, v, k - |text|);
    }
  }

  lemma Reassociate(a: string, b: string, c: string, d: string, e: string, r: string)
    ensures (a + (b + (c + (d + e)))) + r == a + (b + (c + (d + (e + r))))
  {
  }

  /** What is printed after a body's leading text: an envelope, then the rest. */
  lemma {:induction false} NestBalance(t: Tags, b: Body, v: string, j: nat)
    requires TagPair(t) && b.Nest? && IsBody(t, b) && v != "" && v[0] == '<'
    requires j <= |PrintBody(t, b)| - |b.text|
    ensures var s := t.open + (PrintBody(t, b.inner) + (t.close + (PrintBody(t, b.rest) + v)));
            && Balance(t, s, j) >= 0
            && (j == |PrintBody(t, b)| - |b.text| ==> Balance(t, s, j) == 0)
    decreases b, 1
  {
    TagFront(t, t.open, PrintBody(t, b.inner) + (t.close + (PrintBody(t, b.rest) + v)), j);
    if |t.open| <= j {
      InnerBalance(t, b, v, j - |t.open|);
    }
  }

  lemma {:induction false} InnerBalance(t: Tags, b: Body, v: string, j: nat)
    requires TagPair(t) && b.Nest? && IsBody(t, b) && v != "" && v[0] == '<'
    requires j <= |PrintBody(t, b.inner)| + |t.close| + |PrintBody(t, b.rest)|
    ensures var x := Balance(t, PrintBody(t, b.inner) + (t.close + (PrintBody(t, b.rest) + v)), j);
            && x >= -1
            && (j == |PrintBody(t, b.inner)| + |t.close| + |PrintBody(t, b.rest)| ==> x == -1)
    decreases b, 0
  {
    var pi := PrintBody(t, b.inner);
    var s3 := t.close + (PrintBody(t, b.rest) + v);
    if j <= |pi| {
      BodyBalance(t, b.inner, s3, j);
    } else {
      BodyBalance(t, b.inner, s3, |pi|);
      CloseBalance(t, b.rest, v, j - |pi|);
      Cut(t, pi, s3, j - |pi|);
    }
  }

  lemma {:induction false} CloseBalance(t: Tags, rest: Body, v: string, j: nat)
    requires TagPair(t) && IsBody(t, rest) && v != "" && v[0] == '<'
    requires j <= |t.close| + |PrintBody(t, rest)|
    ensures Balance(t, t.close + (PrintBody(t, rest) + v), j) >= -1
    ensures j == |t.close| + |PrintBody(t, rest)| ==> Balance(t, t.close + (PrintBody(t, rest) + v), j) == -1
    decreases rest, 3
  {
    TagFront(t, t.close, PrintBody(t, rest) + v, j);
    if |t.close| <= j {
      BodyBalance(t, rest, v, j - |t.close|);
    }
  }

  /** Inside an envelope the balance is that of its body; its close tag takes it to -1. */
  lemma InsideBalance(t: Tags, b: Body, v: string, j: nat)
    requires TagPair(t) && IsBody(t, b) && j <= |PrintBody(t, b)| + |t.close|
    ensures var x := Balance(t, PrintBody(t, b) + (t.close + v), j);
            if j == |PrintBody(t, b)| + |t.close| then x == -1 else x >= 0
  {
    var pb := PrintBody(t, b);
    if j <= |pb| {
      BodyBalance(t, b, t.close + v, j);
    } else {
      BodyBalance(t, b, t.close + v, |pb|);
      Cut(t, pb, t.close + v, j - |pb|);
      TagFront(t, t.close, v, j - |pb|);
    }
  }

  /** The scanner ends exactly at the close tag of a printed envelope, whatever follows it. */
  lemma EnvelopeEnd(t: Tags, b: Body, v: string, s: string)
    requires TagPair(t) && IsBody(t, b) && s == t.open + (PrintBody(t, b) + (t.close + v))
    ensures LeadingEnd(t, s) == Some(|t.open| + |PrintBody(t, b)| + |t.close|)
  {
    var n := |PrintBody(t, b)| + |t.close|;
    var inside := PrintBody(t, b) + (t.close + v);
    forall j | 0 <= j <= n ensures if j == n then Balance(t, inside, j) == -1 else Balance(t, inside, j) >= 0 {
      InsideBalance(t, b, v, j);
    }
    OpenThenClose(t, inside, n);
  }

  lemma OpenThenClose(t: Tags, inside: string, n: nat)
    requires TagPair(t) && n <= |inside|
    requires forall j :: 0 <= j <= n ==> if j == n then Balance(t, inside, j) == -1 else Balance(t, inside, j) >= 0
    ensures LeadingEnd(t, t.open + inside) == Some(|t.open| + n)
  {
    var s := t.open + inside;
    var end := |t.open| + n;
    forall k | |t.open| <= k <= end ensures Balance(t, s, k) == 1 + Balance(t, inside, k - |t.open|) {
      TagFront(t, t.open, inside, k);
    }
    StartsWith(t.open, inside);
    LeadingEndShortest(t, s, end);
  }

  lemma StartsWith(tag: string, v: string)
    ensures At(tag + v, tag, 0)
  {
  }

  // ---------- Scanning, then parsing ----------

  lemma BalanceSteps(t: Tags, text: string, k: nat)
    requires TagPair(t) && 0 < k <= |text|
    ensures -1 <= Balance(t, text, k) - Balance(t, text, k - 1) <= 1
  {
    CountStep(t, t.open, text, k);
    CountStep(t, t.close, text, k);
  }

  /** The balance moves in steps of one, so on its way down to `Balance(text, k)` it first meets -1 somewhere. */
  lemma {:induction false} FirstBelow(t: Tags, text: string, k: nat) returns (m: nat)
    requires TagPair(t) && k <= |text| && Balance(t, text, k) < 0
    ensures m <= k && Balance(t, text, m) == -1
    ensures forall j :: 0 <= j < m ==> Balance(t, text, j) >= 0
  {
    m := 0;
    while Balance(t, text, m) >= 0
      invariant m <= k
      invariant forall j :: 0 <= j < m ==> Balance(t, text, j) >= 0
      invariant Balance(t, text, m) >= -1
      decreases k - m
    {
      m := m + 1;
      BalanceSteps(t, text, m);
    }
  }

  ghost predicate ClosesAt(t: Tags, s: string, k: nat)
    requires TagPair(t)
  {
    && k <= |s| && Balance(t, s, k) == -1
    && forall j :: 0 <= j < k ==> Balance(t, s, j) >= 0
  }

  /** Where the balance first reaches -1, a body and its close tag have been read. */
  lemma {:induction false} ParseBody(t: Tags, s: string, k: nat) returns (b: Body)
    requires TagPair(t) && ClosesAt(t, s, k)
    ensures IsBody(t, b) && s[..k] == PrintBody(t, b) + t.close
    decreases k
  {
    var close := IndexOf(s, t.close, 0);
    var open := IndexOf(s, t.open, 0);
    if close.None? {
      NoMoreCloses(t, s, 0);
      assert false;
    } else if open.None? || close.value < open.value {
      var c := close.value;
      ScanStep(t, s, 0, t.close, c);
      assert Balance(t, s, c + |t.close|) == -1;
      assert k == c + |t.close|;
      UntaggedPrefix(t, s, c);
      b := Tail(s[..c]);
      assert s[..k] == s[..c] + t.close;
    } else {
      var o := open.value;
      if o == close.value { NoOverlap(t, s, t.open, o, t.close, o); }
      b := ParseNest(t, s, k, o);
    }
  }

  lemma UntaggedPrefix(t: Tags, s: string, c: nat)
    requires TagPair(t) && c <= |s|
    requires forall j: nat :: j < c ==> !At(s, t.open, j)
    requires forall j: nat :: j < c ==> !At(s, t.close, j)
    ensures Untagged(t, s[..c])
  {
    forall tag, i: nat | IsTag(t, tag) && At(s[..c], tag, i)
      ensures false
    {
      assert s == s[..c] + s[c..];
      AtPrefix(tag, s[..c], s[c..], i);
    }
  }

  /** The balance drops only at the end of a close tag. */
  lemma DropIsClean(t: Tags, s: string, q: nat)
    requires TagPair(t) && 0 < q <= |s| && Balance(t, s, q) < Balance(t, s, q - 1)
    ensures Clean(t, s, q)
  {
    CountStep(t, t.open, s, q);
    CountStep(t, t.close, s, q);
    TagEndsClean(t, s, t.close, q - |t.close|);
  }

  lemma AfterOpen(t: Tags, s: string, k: nat, o: nat)
    requires TagPair(t) && ClosesAt(t, s, k)
    requires At(s, t.open, o)
    requires forall j: nat :: j < o ==> !At(s, t.open, j)
    requires forall j: nat :: j < o ==> !At(s, t.close, j)
    ensures o + |t.open| <= k && Clean(t, s, o + |t.open|) && Balance(t, s, o + |t.open|) == 1
  {
    ScanStep(t, s, 0, t.open, o);
  }

  /** From a clean `p` at depth 1, the inner body closes at some clean position where the balance is 0 again. */
  lemma InnerCut(t: Tags, s: string, k: nat, p: nat) returns (m: nat)
    requires TagPair(t) && ClosesAt(t, s, k)
    requires p <= k && Clean(t, s, p) && Balance(t, s, p) == 1
    ensures ClosesAt(t, s[p..], m)
    ensures p + m <= k && Clean(t, s, p + m) && Balance(t, s, p + m) == 0
  {
    BalanceSuffix(t, s, p, k);
    m := FirstBelow(t, s[p..], k - p);
    BackToZero(t, s, p, p + m);
  }

  lemma BackToZero(t: Tags, s: string, p: nat, q: nat)
    requires TagPair(t) && p < q <= |s| && Clean(t, s, p) && Balance(t, s, p) == 1
    requires Balance(t, s[p..], q - p) == -1 && Balance(t, s[p..], q - p - 1) >= 0
    ensures Clean(t, s, q) && Balance(t, s, q) == 0
  {
    BalanceSuffix(t, s, p, q);
    BalanceSuffix(t, s, p, q - 1);
    DropIsClean(t, s, q);
  }

  lemma RestCut(t: Tags, s: string, k: nat, q: nat)
    requires TagPair(t) && ClosesAt(t, s, k)
    requires q <= k && Clean(t, s, q) && Balance(t, s, q) == 0
    ensures ClosesAt(t, s[q..], k - q)
  {
    forall j | q <= j <= k ensures Balance(t, s, j) == Balance(t, s[q..], j - q) {
      BalanceSuffix(t, s, q, j);
    }
    forall j | 0 <= j < k - q ensures Balance(t, s[q..], j) >= 0 {
      assert Balance(t, s, q + j) == Balance(t, s[q..], q + j - q);
    }
  }

  lemma SplitNest(t: Tags, s: string, k: nat, o: nat, p: nat) returns (m: nat)
    requires TagPair(t) && ClosesAt(t, s, k)
    requires At(s, t.open, o) && p == o + |t.open|
    requires forall j: nat :: j < o ==> !At(s, t.open, j)
    requires forall j: nat :: j < o ==> !At(s, t.close, j)
    ensures p + m <= k && ClosesAt(t, s[p..], m) && ClosesAt(t, s[p + m..], k - (p + m))
  {
    AfterOpen(t, s, k, o);
    m := InnerCut(t, s, k, p);
    RestCut(t, s, k, p + m);
  }

  lemma {:induction false} ParseNest(t: Tags, s: string, k: nat, o: nat) returns (b: Body)
    requires TagPair(t) && ClosesAt(t, s, k)
    requires At(s, t.open, o)
    requires forall j: nat :: j < o ==> !At(s, t.open, j)
    requires forall j: nat :: j < o ==> !At(s, t.close, j)
    ensures IsBody(t, b) && s[..k] == PrintBody(t, b) + t.close
    decreases k, 0
  {
    var p := o + |t.open|;
    var m := SplitNest(t, s, k, o, p);
    var inner := ParseBody(t, s[p..], m);
    var rest := ParseBody(t, s[p + m..], k - (p + m));
    UntaggedPrefix(t, s, o);
    b := Nest(s[..o], inner, rest);
    Glue(t, s, o, p, m, k, PrintBody(t, inner), PrintBody(t, rest));
  }

  lemma Glue(t: Tags, s: string, o: nat, p: nat, m: nat, k: nat, inner: string, rest: string)
    requires At(s, t.open, o) && p == o + |t.open| && p + m <= k <= |s|
    requires s[p..][..m] == inner + t.close
    requires s[p + m..][..k - (p + m)] == rest + t.close
    ensures s[..k] == s[..o] + (t.open + (inner + (t.close + rest))) + t.close
  {
    AtSlice(s, t.open, o);
    CutThrice(s, o, p, p + m, k);
    SliceOfDrop(s, p, m);
    SliceOfDrop(s, p + m, k - (p + m));
    Rebracket(s[..o], t.open, inner, t.close, rest);
  }

  lemma AtSlice(s: string, tag: string, i: nat)
    requires At(s, tag, i)
    ensures s[i..i + |tag|] == tag
  {
  }

  lemma SliceOfDrop(s: string, p: nat, m: nat)
    requires p + m <= |s|
    ensures s[p..][..m] == s[p..p + m]
  {
  }

  lemma CutThrice(s: string, a: nat, b: nat, c: nat, d: nat)
    requires a <= b <= c <= d <= |s|
    ensures s[..d] == s[..a] + s[a..b] + s[b..c] + s[c..d]
  {
  }

  lemma Rebracket(a: string, b: string, c: string, d: string, e: string)
    ensures a + b + (c + d) + (e + d) == a + (b + (c + (d + e))) + d
  {
  }

  // ---------- Main results ----------

  /** A text starts with a complete envelope, as the scanner finds it, exactly when the grammar says so. */
  lemma LeadingEnvelope(t: Tags, text: string)
    requires TagPair(t)
    ensures LeadingEnd(t, text).Some? <==>
            exists b, v :: IsBody(t, b) && text == t.open + (PrintBody(t, b) + (t.close + v))
  {
    if LeadingEnd(t, text).Some? {
      var b, v := ParseEnvelope(t, text);
    }
    if b, v :| IsBody(t, b) && text == t.open + (PrintBody(t, b) + (t.close + v)) {
      EnvelopeEnd(t, b, v, text);
    }
  }

  lemma EnvelopeCut(t: Tags, text: string, end: nat) returns (m: nat)
    requires TagPair(t) && LeadingEnd(t, text) == Some(end)
    ensures ClosesAt(t, text[|t.open|..], m) && end == |t.open| + m <= |text|
  {
    var p := |t.open|;
    ScanStart(t, text);
    FirstZeroIsFirst(t, text, p);
    BalanceSuffix(t, text, p, end);
    m := FirstBelow(t, text[p..], end - p);
    BalanceSuffix(t, text, p, p + m);
  }

  lemma ParseEnvelope(t: Tags, text: string) returns (b: Body, v: string)
    requires TagPair(t) && LeadingEnd(t, text).Some?
    ensures IsBody(t, b) && text == t.open + (PrintBody(t, b) + (t.close + v))
  {
    var end := LeadingEnd(t, text).value;
    var m := EnvelopeCut(t, text, end);
    b := ParseBody(t, text[|t.open|..], m);
    v := text[end..];
    GlueEnvelope(t, text, m, PrintBody(t, b), v);
  }

  lemma GlueEnvelope(t: Tags, text: string, m: nat, inner: string, v: string)
    requires At(text, t.open, 0) && |t.open| + m <= |text|
    requires text[|t.open|..][..m] == inner + t.close && v == text[|t.open| + m..]
    ensures text == t.open + (inner + (t.close + v))
  {
    var s := text[|t.open|..];
    assert text == text[..|t.open|] + s;
    assert text[..|t.open|] == t.open;
    assert s == s[..m] + s[m..];
    assert s[m..] == v;
  }

  /** A text that stripping leaves alone once something has been stripped. */
  ghost predicate Irreducible(t: Tags, text: string)
    requires TagPair(t)
  {
    && (text != "" ==> !IsWhitespace(text[0]))
    && !exists b, v :: IsBody(t, b) && text == t.open + (PrintBody(t, b) + (t.close + v))
  }

  /** One printed envelope is dropped, with the white space after it. */
  lemma DropEnvelope(t: Tags, b: Body, v: string, s: string)
    requires TagPair(t) && IsBody(t, b)
    requires s == t.open + (PrintBody(t, b) + (t.close + v))
    ensures LeadingEnd(t, s).Some? && DropEnvelopes(t, s) == DropEnvelopes(t, TrimStart(v))
  {
    var end := |t.open| + |PrintBody(t, b)| + |t.close|;
    AfterClose(t.open, PrintBody(t, b), t.close, v);
    EnvelopeEnd(t, b, v, s);
    DropStep(t, s, end);
  }

  lemma DropOne(t: Tags, space: string, b: Body, v: string, s: string)
    requires TagPair(t) && Blank(space) && IsBody(t, b)
    requires s == t.open + (PrintBody(t, b) + (t.close + v))
    ensures LeadingEnd(t, TrimStart(space + s)).Some?
    ensures DropEnvelopes(t, TrimStart(space + s)) == DropEnvelopes(t, TrimStart(v))
  {
    DropEnvelope(t, b, v, s);
    assert s[0] == '<';
    TrimStartBlank(space, s);
  }

  lemma AfterClose(a: string, b: string, c: string, v: string)
    ensures (a + (b + (c + v)))[|a| + |b| + |c|..] == v
  {
    assert a + (b + (c + v)) == a + b + c + v;
  }

  lemma DropStep(t: Tags, s: string, end: nat)
    requires TagPair(t) && LeadingEnd(t, s) == Some(end) && end <= |s|
    ensures DropEnvelopes(t, s) == DropEnvelopes(t, TrimStart(s[end..]))
  {
  }

  lemma DropNone(t: Tags, space: string, r: string)
    requires TagPair(t) && Blank(space) && Irreducible(t, r)
    ensures LeadingEnd(t, r).None? && DropEnvelopes(t, TrimStart(space + r)) == r
  {
    TrimStartBlank(space, r);
    LeadingEnvelope(t, r);
  }

  /** Print any forest, then any irreducible remainder: dropping envelopes returns that remainder. */
  lemma {:induction false} DropPrinted(t: Tags, f: Forest, r: string)
    requires TagPair(t) && IsForest(t, f) && Irreducible(t, r)
    ensures DropEnvelopes(t, TrimStart(PrintForest(t, f) + r)) == r
    ensures f.Envelope? ==> LeadingEnd(t, TrimStart(PrintForest(t, f) + r)).Some?
  {
    match f
    case Done(space) =>
      DropNone(t, space, r);
    case Envelope(space, body, rest) =>
      Reassociate(space, t.open, PrintBody(t, body), t.close, PrintForest(t, rest), r);
      var v := PrintForest(t, rest) + r;
      DropOne(t, space, body, v, t.open + (PrintBody(t, body) + (t.close + v)));
      DropPrinted(t, rest, r);
  }

  /** Every text is a printed forest followed by an irreducible remainder. */
  lemma {:induction false} ParseForest(t: Tags, text: string) returns (f: Forest)
    requires TagPair(t)
    ensures IsForest(t, f)
    ensures text == PrintForest(t, f) + DropEnvelopes(t, TrimStart(text))
    ensures Irreducible(t, DropEnvelopes(t, TrimStart(text)))
    ensures f.Envelope? <==> LeadingEnd(t, TrimStart(text)).Some?
    decreases |text|
  {
    var s := TrimStart(text);
    var space := TrimStartSplits(text);
    LeadingEnvelope(t, s);
    if LeadingEnd(t, s).None? {
      f := Done(space);
    } else {
      var body, v := ParseEnvelope(t, s);
      DropOne(t, space, body, v, s);
      var rest := ParseForest(t, v);
      Reassociate(space, t.open, PrintBody(t, body), t.close, PrintForest(t, rest), DropEnvelopes(t, TrimStart(v)));
      f := Envelope(space, body, rest);
    }
  }

  /**
   * Stripping, characterised without the scanner: either no complete envelope follows the leading white
   * space and the text comes back unchanged, or the text is one or more envelopes, with white space
   * around them, in front of the result.
   */
  lemma StripCharacterised(t: Tags, text: string, r: string)
    requires TagPair(t)
    ensures r == Strip(t, text) <==>
            || (Irreducible(t, TrimStart(text)) && r == text)
            || (Irreducible(t, r) && exists f :: IsForest(t, f) && f.Envelope? && text == PrintForest(t, f) + r)
  {
    LeadingEnvelope(t, TrimStart(text));
    var g := ParseForest(t, text);
    if f :| Irreducible(t, r) && IsForest(t, f) && f.Envelope? && text == PrintForest(t, f) + r {
      DropPrinted(t, f, r);
    }
  }

  /** Stripping removes a prefix, and stripping twice equals stripping once. */
  lemma StripIdempotent(t: Tags, text: string)
    requires TagPair(t)
    ensures Strip(t, Strip(t, text)) == Strip(t, text)
    ensures exists p :: text == p + Strip(t, text)
  {
    var f := ParseForest(t, text);
    var r := Strip(t, text);
    if LeadingEnd(t, TrimStart(text)).Some? {
      assert text == PrintForest(t, f) + r;
      DropNone(t, "", r);
      assert "" + r == r && TrimStart(r) == r;
    } else {
      assert text == "" + r;
    }
  }
}
