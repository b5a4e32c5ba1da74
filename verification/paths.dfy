/** The configuration's path canonicaliser: split a path into runs of
    separators and runs of other characters, collapse every separator run
    to one separator, resolve `.` and `..` segments, and drop trailing
    separators. Both `/` and `\` are separators and each is kept as typed. */
module Paths {

  predicate IsSep(c: char) {
    c == '/' || c == '\\'
  }

  /** Whether a chunk is a separator chunk (judged by its first character). */
  predicate Kind(c: string) {
    |c| > 0 && IsSep(c[0])
  }

  predicate SepRun(c: string) {
    |c| > 0 && forall i :: 0 <= i < |c| ==> IsSep(c[i])
  }

  predicate WordRun(c: string) {
    |c| > 0 && forall i :: 0 <= i < |c| ==> !IsSep(c[i])
  }

  /** A chunk list as `preg_split('#([\\/]+)#', …, DELIM_CAPTURE | NO_EMPTY)`
      yields it: every chunk a run, neighbours of different kinds. */
  predicate Alternating(cs: seq<string>) {
    && (forall i :: 0 <= i < |cs| ==> SepRun(cs[i]) || WordRun(cs[i]))
    && (forall i :: 0 < i < |cs| ==> Kind(cs[i - 1]) != Kind(cs[i]))
  }

  function Concat(cs: seq<string>): string {
    if |cs| == 0 then "" else cs[0] + Concat(cs[1..])
  }

  /** The length of the maximal run of one kind at the start of `s`. */
  function RunLength(s: string): (k: nat)
    requires |s| > 0
    ensures 1 <= k <= |s|
    ensures forall i :: 0 <= i < k ==> IsSep(s[i]) == IsSep(s[0])
    ensures k < |s| ==> IsSep(s[k]) != IsSep(s[0])
  {
    if |s| == 1 || IsSep(s[1]) != IsSep(s[0]) then 1 else 1 + RunLength(s[1..])
  }

  /** The `preg_split` step: the maximal runs of `s`, in order. */
  function Chunks(s: string): (cs: seq<string>)
    ensures Alternating(cs)
    ensures Concat(cs) == s
    ensures |cs| > 0 ==> Kind(cs[0]) == IsSep(s[0])
    decreases |s|
  {
    if |s| == 0 then []
    else
      var k := RunLength(s);
      var rest := Chunks(s[k..]);
      var cs := [s[..k]] + rest;
      assert cs[1..] == rest;
      assert s[..k] + s[k..] == s;
      cs
  }

  /** `array_pop`: no effect on an empty array. */
  function Pop(r: seq<string>): (t: seq<string>)
    ensures |r| > 0 ==> t == r[..|r| - 1]
    ensures |r| == 0 ==> t == []
  {
    if |r| == 0 then r else r[..|r| - 1]
  }

  /** Skipping the current chunk and the next one (`++$i; continue;`). */
  function Skip2(cs: seq<string>): seq<string> {
    if |cs| >= 2 then cs[2..] else []
  }

  /** `0 === strncmp($chunk, $c, 1)`. */
  predicate StartsWithChar(chunk: string, c: char) {
    |chunk| > 0 && chunk[0] == c
  }

  /** The loop over the chunks, with `resolved` the parts kept so far. */
  function Resolve(cs: seq<string>, resolved: seq<string>): seq<string>
    decreases |cs|
  {
    if |cs| == 0 then resolved
    else if cs[0] == "." then Resolve(Skip2(cs), resolved)
    else if StartsWithChar(cs[0], '/') then Resolve(cs[1..], resolved + ["/"])
    else if StartsWithChar(cs[0], '\\') then Resolve(cs[1..], resolved + ["\\"])
    else if cs[0] == ".." then Resolve(Skip2(cs), Pop(Pop(resolved)))
    else Resolve(cs[1..], resolved + [cs[0]])
  }

  /** `rtrim($s, '\/')`. */
  function RTrimSeps(s: string): (t: string)
    ensures |t| <= |s| && t == s[..|t|]
    ensures t == [] || !IsSep(t[|t| - 1])
    ensures forall i :: |t| <= i < |s| ==> IsSep(s[i])
  {
    if |s| > 0 && IsSep(s[|s| - 1]) then RTrimSeps(s[..|s| - 1]) else s
  }

  /** A segment that survives canonicalisation. */
  predicate Segment(c: string) {
    WordRun(c) && c != "." && c != ".."
  }

  /** A chunk of canonical output: a single separator or a proper segment. */
  predicate Kept(c: string) {
    c == "/" || c == "\\" || Segment(c)
  }

  /** A canonical path: single separators between segments, no `.` or `..`
      segment, no separator at the end. */
  predicate Canonical(s: string) {
    && (forall i :: 0 <= i < |Chunks(s)| ==> Kept(Chunks(s)[i]))
    && (s == [] || !IsSep(s[|s| - 1]))
  }

  /** `canonicalize`. */
  function Canonicalize(value: string): (r: string)
    ensures r == [] || !IsSep(r[|r| - 1])
    ensures Canonical(r)
  {
    var res := Resolve(Chunks(value), []);
    ResolveTidy(Chunks(value), []);
    TrimTidy(res);
    ChunksOfAlternating(DropTrailingSep(res));
    RTrimSeps(Concat(res))
  }

  // ---------------------------------------------------------------------
  // Structure of the resolved parts

  predicate Tidy(r: seq<string>) {
    Alternating(r) && forall i :: 0 <= i < |r| ==> Kept(r[i])
  }

  function DropTrailingSep(r: seq<string>): seq<string> {
    if |r| > 0 && Kind(r[|r| - 1]) then r[..|r| - 1] else r
  }

  lemma TidyPrefix(r: seq<string>, n: nat)
    requires Tidy(r) && n <= |r|
    ensures Tidy(r[..n])
  {
  }

  /** Popping two parts off a tidy list ending in a separator leaves a tidy
      list ending in a separator. */
  lemma PopTwiceTidy(r: seq<string>)
    requires Tidy(r) && (|r| > 0 ==> Kind(r[|r| - 1]))
    ensures Tidy(Pop(Pop(r)))
    ensures |Pop(Pop(r))| > 0 ==> Kind(Pop(Pop(r))[|Pop(Pop(r))| - 1])
  {
    if |r| >= 2 {
      assert Pop(Pop(r)) == r[..|r| - 2];
      TidyPrefix(r, |r| - 2);
      if |r| >= 3 {
        assert Kind(r[|r| - 3]) != Kind(r[|r| - 2]);
        assert Kind(r[|r| - 2]) != Kind(r[|r| - 1]);
      }
    }
  }

  /** The loop keeps the parts tidy: each kept part is a single separator or
      a proper segment, and kinds alternate. */
  lemma {:induction false} ResolveTidy(cs: seq<string>, r: seq<string>)
    requires Alternating(cs) && Tidy(r)
    requires |cs| > 0 && !Kind(cs[0]) && |r| > 0 ==> Kind(r[|r| - 1])
    requires |cs| > 0 && Kind(cs[0]) && |r| > 0 ==> !Kind(r[|r| - 1])
    ensures Tidy(Resolve(cs, r))
    decreases |cs|
  {
    if |cs| == 0 {
      return;
    }
    assert SepRun(cs[0]) || WordRun(cs[0]);
    AlternatingDrop(cs, 1);
    if |cs| >= 2 {
      assert Kind(cs[0]) != Kind(cs[1]);
      AlternatingDrop(cs, 2);
    }
    if |cs| >= 3 {
      assert Kind(cs[1]) != Kind(cs[2]);
    }
    if cs[0] == "." {
      assert Resolve(cs, r) == Resolve(Skip2(cs), r);
      ResolveTidy(Skip2(cs), r);
    } else if StartsWithChar(cs[0], '/') {
      assert Resolve(cs, r) == Resolve(cs[1..], r + ["/"]);
      AppendTidy(r, "/");
      ResolveTidy(cs[1..], r + ["/"]);
    } else if StartsWithChar(cs[0], '\\') {
      assert Resolve(cs, r) == Resolve(cs[1..], r + ["\\"]);
      AppendTidy(r, "\\");
      ResolveTidy(cs[1..], r + ["\\"]);
    } else if cs[0] == ".." {
      assert Resolve(cs, r) == Resolve(Skip2(cs), Pop(Pop(r)));
      PopTwiceTidy(r);
      ResolveTidy(Skip2(cs), Pop(Pop(r)));
    } else {
      assert Resolve(cs, r) == Resolve(cs[1..], r + [cs[0]]);
      assert Segment(cs[0]);
      AppendTidy(r, cs[0]);
      ResolveTidy(cs[1..], r + [cs[0]]);
    }
  }

  lemma AlternatingDrop(cs: seq<string>, k: nat)
    requires Alternating(cs) && k <= |cs|
    ensures Alternating(cs[k..])
  {
    assert forall i :: 0 <= i < |cs| - k ==> cs[k..][i] == cs[k + i];
  }

  /** Appending a kept part of the other kind keeps a list tidy. */
  lemma AppendTidy(r: seq<string>, x: string)
    requires Tidy(r) && Kept(x)
    requires |r| > 0 ==> Kind(r[|r| - 1]) != Kind(x)
    ensures Tidy(r + [x])
    ensures Kind((r + [x])[|r|]) == Kind(x)
  {
    assert SepRun(x) || WordRun(x);
  }

  lemma {:induction false} ConcatAppend(a: seq<string>, b: seq<string>)
    ensures Concat(a + b) == Concat(a) + Concat(b)
    decreases |a|
  {
    if |a| == 0 {
      assert a + b == b;
    } else {
      assert (a + b)[1..] == a[1..] + b;
      ConcatAppend(a[1..], b);
    }
  }

  /** The last character of a tidy, non-empty part list is the last
      character of its last part. */
  lemma ConcatLast(r: seq<string>)
    requires |r| > 0 && |r[|r| - 1]| > 0
    ensures |Concat(r)| > 0
    ensures Concat(r)[|Concat(r)| - 1] == r[|r| - 1][|r[|r| - 1]| - 1]
    ensures Concat(r) == Concat(r[..|r| - 1]) + r[|r| - 1]
  {
    ConcatAppend(r[..|r| - 1], [r[|r| - 1]]);
    assert r[..|r| - 1] + [r[|r| - 1]] == r;
  }

  lemma RTrimNoop(s: string)
    requires s == [] || !IsSep(s[|s| - 1])
    ensures RTrimSeps(s) == s
  {
  }

  /** A tidy list ending in a segment joins to a string ending in a
      non-separator. */
  lemma EndsInSegment(r: seq<string>)
    requires Tidy(r) && |r| > 0 && !Kind(r[|r| - 1])
    ensures |Concat(r)| > 0 && !IsSep(Concat(r)[|Concat(r)| - 1])
  {
    var last := r[|r| - 1];
    assert Kept(last);
    assert Segment(last);
    ConcatLast(r);
    assert !IsSep(last[|last| - 1]);
  }

  /** `rtrim` removes exactly a trailing separator part. */
  lemma TrimTidy(r: seq<string>)
    requires Tidy(r)
    ensures Tidy(DropTrailingSep(r))
    ensures RTrimSeps(Concat(r)) == Concat(DropTrailingSep(r))
    ensures |DropTrailingSep(r)| == 0 || !Kind(DropTrailingSep(r)[|DropTrailingSep(r)| - 1])
  {
    if |r| == 0 {
      return;
    }
    if Kind(r[|r| - 1]) {
      TrimSepPart(r);
    } else {
      EndsInSegment(r);
      RTrimNoop(Concat(r));
    }
  }

  lemma TrimSepPart(r: seq<string>)
    requires Tidy(r) && |r| > 0 && Kind(r[|r| - 1])
    ensures Tidy(r[..|r| - 1])
    ensures RTrimSeps(Concat(r)) == Concat(r[..|r| - 1])
    ensures |r| == 1 || !Kind(r[|r| - 2])
  {
    var n := |r|;
    var init := r[..n - 1];
    assert Kept(r[n - 1]);
    TidyPrefix(r, n - 1);
    ConcatLast(r);
    if n >= 2 {
      assert Kind(r[n - 2]) != Kind(r[n - 1]);
      assert init[n - 2] == r[n - 2];
      EndsInSegment(init);
    } else {
      assert Concat(init) == "";
    }
    TrimOneSep(Concat(init), r[n - 1]);
  }

  /** `rtrim` of a string ending in a non-separator followed by one
      separator. */
  lemma TrimOneSep(t: string, sep: string)
    requires sep == "/" || sep == "\\"
    requires t == [] || !IsSep(t[|t| - 1])
    ensures RTrimSeps(t + sep) == t
  {
    var s := t + sep;
    assert s[..|s| - 1] == t;
    RTrimNoop(t);
  }

  /** A run followed by something of the other kind is a whole run. */
  lemma {:induction false} RunLengthOfRun(c: string, rest: string)
    requires SepRun(c) || WordRun(c)
    requires |rest| > 0 ==> IsSep(rest[0]) != IsSep(c[0])
    ensures RunLength(c + rest) == |c|
    decreases |c|
  {
    var s := c + rest;
    if |c| > 1 {
      assert s[1..] == c[1..] + rest;
      assert IsSep(c[1]) == IsSep(c[0]);
      RunLengthOfRun(c[1..], rest);
    }
  }

  /** Splitting a join of alternating runs gives the runs back. */
  lemma {:induction false} ChunksOfAlternating(t: seq<string>)
    requires Alternating(t)
    ensures Chunks(Concat(t)) == t
    decreases |t|
  {
    if |t| > 0 {
      var rest := Concat(t[1..]);
      if |t| > 1 {
        assert Kind(t[0]) != Kind(t[1]);
        assert SepRun(t[1]) || WordRun(t[1]);
        assert rest == t[1] + Concat(t[2..]);
      }
      RunLengthOfRun(t[0], rest);
      var s := t[0] + rest;
      assert s[..|t[0]|] == t[0];
      assert s[|t[0]|..] == rest;
      ChunksOfAlternating(t[1..]);
      assert [t[0]] + t[1..] == t;
    }
  }

  /** One turn of the loop on a chunk that is neither `.` nor `..`: a
      separator run is kept as its first separator, a segment as it is. */
  lemma ResolveStep(cs: seq<string>, acc: seq<string>)
    requires |cs| > 0 && (SepRun(cs[0]) || WordRun(cs[0]))
    requires cs[0] != "." && cs[0] != ".."
    ensures Resolve(cs, acc) == Resolve(cs[1..], acc + [CollapseChunk(cs[0])])
  {
    var c := cs[0];
    if SepRun(c) {
      assert IsSep(c[0]);
      if c[0] == '/' {
        assert [c[0]] == "/";
      } else {
        assert [c[0]] == "\\";
      }
    } else {
      assert !IsSep(c[0]);
    }
  }

  /** The loop keeps every part that is already canonical. */
  lemma {:induction false} ResolveKept(t: seq<string>, acc: seq<string>)
    requires forall i :: 0 <= i < |t| ==> Kept(t[i])
    ensures Resolve(t, acc) == acc + t
    decreases |t|
  {
    if |t| == 0 {
      assert acc + t == acc;
    } else {
      assert Kept(t[0]);
      ResolveStep(t, acc);
      assert CollapseChunk(t[0]) == t[0];
      ResolveKept(t[1..], acc + [t[0]]);
      assert acc + [t[0]] + t[1..] == acc + t;
    }
  }

  /** Canonical paths, and only they, are left alone. */
  lemma CanonicalFixpoint(s: string)
    ensures Canonicalize(s) == s <==> Canonical(s)
  {
    if Canonical(s) {
      var cs := Chunks(s);
      ResolveKept(cs, []);
      assert [] + cs == cs;
      assert Tidy(cs);
      TrimTidy(cs);
      if |cs| > 0 {
        ConcatLast(cs);
        assert !Kind(cs[|cs| - 1]);
      }
    }
  }

  /** Canonicalising twice is canonicalising once; in particular the
      defaults the configuration canonicalises are unchanged when its
      validation canonicalises them again. */
  lemma Idempotent(value: string)
    ensures Canonicalize(Canonicalize(value)) == Canonicalize(value)
  {
    CanonicalFixpoint(Canonicalize(value));
  }

  // ---------------------------------------------------------------------
  // Separator runs

  function DropLeadingSeps(s: string): (t: string)
    ensures |t| <= |s| && t == s[|s| - |t|..]
    ensures t == [] || !IsSep(t[0])
    ensures forall i :: 0 <= i < |s| - |t| ==> IsSep(s[i])
  {
    if |s| > 0 && IsSep(s[0]) then DropLeadingSeps(s[1..]) else s
  }

  /** Reference definition: every maximal run of separators replaced by its
      first character, everything else untouched. */
  function CollapseSeps(s: string): string
    decreases |s|
  {
    if |s| == 0 then ""
    else if IsSep(s[0]) then [s[0]] + CollapseSeps(DropLeadingSeps(s[1..]))
    else [s[0]] + CollapseSeps(s[1..])
  }

  function CollapseChunk(c: string): string {
    if Kind(c) then [c[0]] else c
  }

  function CollapseAll(cs: seq<string>): (r: seq<string>)
    ensures |r| == |cs|
    ensures forall i :: 0 <= i < |cs| ==> r[i] == CollapseChunk(cs[i])
  {
    seq(|cs|, i requires 0 <= i < |cs| => CollapseChunk(cs[i]))
  }

  lemma {:induction false} DropSepRun(c: string, rest: string)
    requires forall i :: 0 <= i < |c| ==> IsSep(c[i])
    requires |rest| > 0 ==> !IsSep(rest[0])
    ensures DropLeadingSeps(c + rest) == rest
    decreases |c|
  {
    if |c| > 0 {
      assert (c + rest)[1..] == c[1..] + rest;
      DropSepRun(c[1..], rest);
    } else {
      assert c + rest == rest;
    }
  }

  lemma {:induction false} CollapseWord(c: string, rest: string)
    requires forall i :: 0 <= i < |c| ==> !IsSep(c[i])
    ensures CollapseSeps(c + rest) == c + CollapseSeps(rest)
    decreases |c|
  {
    if |c| > 0 {
      assert (c + rest)[1..] == c[1..] + rest;
      CollapseWord(c[1..], rest);
      assert [c[0]] + c[1..] == c;
    } else {
      assert c + rest == rest;
    }
  }

  lemma CollapseRun(c: string, rest: string)
    requires SepRun(c) || WordRun(c)
    requires |rest| > 0 ==> IsSep(rest[0]) != IsSep(c[0])
    ensures CollapseSeps(c + rest) == CollapseChunk(c) + CollapseSeps(rest)
  {
    if SepRun(c) {
      assert (c + rest)[1..] == c[1..] + rest;
      DropSepRun(c[1..], rest);
    } else {
      CollapseWord(c, rest);
    }
  }

  lemma {:induction false} CollapseAlternating(cs: seq<string>)
    requires Alternating(cs)
    ensures Concat(CollapseAll(cs)) == CollapseSeps(Concat(cs))
    decreases |cs|
  {
    if |cs| > 0 {
      var rest := Concat(cs[1..]);
      if |cs| > 1 {
        assert Kind(cs[0]) != Kind(cs[1]);
        assert SepRun(cs[1]) || WordRun(cs[1]);
        assert rest == cs[1] + Concat(cs[2..]);
      }
      CollapseRun(cs[0], rest);
      CollapseAlternating(cs[1..]);
      assert CollapseAll(cs)[1..] == CollapseAll(cs[1..]);
    }
  }

  /** Without `.` and `..` chunks the loop only collapses separators. */
  lemma {:induction false} ResolveWithoutDots(cs: seq<string>, acc: seq<string>)
    requires Alternating(cs)
    requires forall i :: 0 <= i < |cs| ==> cs[i] != "." && cs[i] != ".."
    ensures Resolve(cs, acc) == acc + CollapseAll(cs)
    decreases |cs|
  {
    if |cs| == 0 {
      assert acc + CollapseAll(cs) == acc;
    } else {
      var head := CollapseChunk(cs[0]);
      var tail := cs[1..];
      assert SepRun(cs[0]) || WordRun(cs[0]);
      ResolveStep(cs, acc);
      AlternatingTail(cs);
      assert forall i :: 0 <= i < |tail| ==> tail[i] == cs[i + 1];
      var acc' := acc + [head];
      ResolveWithoutDots(tail, acc');
      var ct := CollapseAll(tail);
      CollapseAllCons(cs);
      SeqAssoc(acc, [head], ct);
    }
  }

  lemma SeqAssoc<T>(a: seq<T>, b: seq<T>, c: seq<T>)
    ensures a + b + c == a + (b + c)
  {
  }

  lemma AlternatingTail(cs: seq<string>)
    requires Alternating(cs) && |cs| > 0
    ensures Alternating(cs[1..])
  {
  }

  lemma CollapseAllCons(cs: seq<string>)
    requires |cs| > 0
    ensures CollapseAll(cs) == [CollapseChunk(cs[0])] + CollapseAll(cs[1..])
  {
  }

  /** For a path without `.` or `..` segments, canonicalising is collapsing
      each separator run to its first separator and trimming the end. */
  lemma CollapsesSeparatorRuns(value: string)
    requires forall i :: 0 <= i < |Chunks(value)| ==> Chunks(value)[i] != "." && Chunks(value)[i] != ".."
    ensures Canonicalize(value) == RTrimSeps(CollapseSeps(value))
  {
    var cs := Chunks(value);
    ResolveWithoutDots(cs, []);
    assert [] + CollapseAll(cs) == CollapseAll(cs);
    CollapseAlternating(cs);
  }

  // ---------------------------------------------------------------------
  // `.` and `..`

  /** No separator to trim after a final segment. */
  lemma TrimAfterSegment(a: string, b: string)
    requires Segment(b)
    ensures RTrimSeps(a + "/" + b) == a + "/" + b
  {
    assert !IsSep(b[|b| - 1]);
  }

  lemma Concat3(a: string, b: string, c: string)
    ensures Concat([a, b, c]) == a + b + c
  {
    assert [c][1..] == [];
    assert Concat([c]) == c + "";
    assert c + "" == c;
    assert [b, c][1..] == [c];
    assert Concat([b, c]) == b + c;
    assert [a, b, c][1..] == [b, c];
    assert Concat([a, b, c]) == a + (b + c);
  }

  /** Canonicalising a join of alternating runs works on those runs. */
  lemma CanonicalizeChunks(v: string, cs: seq<string>)
    requires Alternating(cs) && Concat(cs) == v
    ensures Canonicalize(v) == RTrimSeps(Concat(Resolve(cs, [])))
  {
    ChunksOfAlternating(cs);
  }

  /** The loop keeps a chunk that is already canonical. */
  lemma ResolveStepKept(cs: seq<string>, acc: seq<string>)
    requires |cs| > 0 && Kept(cs[0])
    ensures Resolve(cs, acc) == Resolve(cs[1..], acc + [cs[0]])
  {
    ResolveStep(cs, acc);
    assert CollapseChunk(cs[0]) == cs[0];
  }

  /** A `.` segment disappears together with the separator after it. */
  lemma DotSegmentDropped(a: string, b: string)
    requires Segment(a) && Segment(b)
    ensures Canonicalize(a + "/./" + b) == a + "/" + b
  {
    var cs := [a, "/", ".", "/", b];
    assert Alternating(cs);
    assert Concat(cs[4..]) == b;
    assert Concat(cs[3..]) == "/" + b;
    assert Concat(cs[2..]) == "./" + b;
    assert Concat(cs[1..]) == "/./" + b;
    assert Concat(cs) == a + "/./" + b;
    CanonicalizeChunks(a + "/./" + b, cs);
    ResolveDot(a, b, cs);
    Concat3(a, "/", b);
    TrimAfterSegment(a, b);
  }

  lemma ResolveDot(a: string, b: string, cs: seq<string>)
    requires Segment(a) && Segment(b)
    requires cs == [a, "/", ".", "/", b]
    ensures Resolve(cs, []) == [a, "/", b]
  {
    ResolveStepKept(cs, []);
    assert [] + [a] == [a];
    assert cs[1..][1..] == cs[2..];
    ResolveStepKept(cs[1..], [a]);
    assert [a] + ["/"] == [a, "/"];
    assert Skip2(cs[2..]) == cs[4..];
    assert Resolve(cs[2..], [a, "/"]) == Resolve(cs[4..], [a, "/"]);
    ResolveStepKept(cs[4..], [a, "/"]);
    assert [a, "/"] + [b] == [a, "/", b];
    assert cs[4..][1..] == [];
  }

  /** A `..` segment removes the segment before it, its separator, and the
      separator after it. */
  lemma DotDotSegmentRemovesParent(a: string, b: string, c: string)
    requires Segment(a) && Segment(b) && Segment(c)
    ensures Canonicalize(a + "/" + b + "/../" + c) == a + "/" + c
  {
    var cs := [a, "/", b, "/", "..", "/", c];
    ConcatDotDot(a, b, c, cs);
    CanonicalizeChunks(a + "/" + b + "/../" + c, cs);
    ResolveDotDot(a, b, c, cs);
    Concat3(a, "/", c);
    TrimAfterSegment(a, c);
  }

  /** The runs of `a/b/../c`. */
  lemma ConcatDotDot(a: string, b: string, c: string, cs: seq<string>)
    requires Segment(a) && Segment(b) && Segment(c)
    requires cs == [a, "/", b, "/", "..", "/", c]
    ensures Alternating(cs) && Concat(cs) == a + "/" + b + "/../" + c
  {
    assert Concat(cs[6..]) == c;
    assert Concat(cs[5..]) == "/" + c;
    assert Concat(cs[4..]) == ".." + "/" + c;
    assert Concat(cs[3..]) == "/../" + c;
    assert Concat(cs[2..]) == b + "/../" + c;
    assert Concat(cs[1..]) == "/" + b + "/../" + c;
  }

  lemma ResolveDotDot(a: string, b: string, c: string, cs: seq<string>)
    requires Segment(a) && Segment(b) && Segment(c)
    requires cs == [a, "/", b, "/", "..", "/", c]
    ensures Resolve(cs, []) == [a, "/", c]
  {
    ResolveStepKept(cs, []);
    assert [] + [a] == [a];
    assert cs[1..][1..] == cs[2..];
    ResolveStepKept(cs[1..], [a]);
    assert [a] + ["/"] == [a, "/"];
    assert cs[2..][1..] == cs[3..];
    ResolveStepKept(cs[2..], [a, "/"]);
    assert [a, "/"] + [b] == [a, "/", b];
    assert cs[3..][1..] == cs[4..];
    ResolveStepKept(cs[3..], [a, "/", b]);
    assert [a, "/", b] + ["/"] == [a, "/", b, "/"];
    assert Skip2(cs[4..]) == cs[6..];
    assert Pop(Pop([a, "/", b, "/"])) == [a, "/"];
    assert Resolve(cs[4..], [a, "/", b, "/"]) == Resolve(cs[6..], [a, "/"]);
    ResolveStepKept(cs[6..], [a, "/"]);
    assert [a, "/"] + [c] == [a, "/", c];
    assert Resolve(cs[6..], [a, "/"]) == [a, "/", c];
  }

  /** A `..` right after a leading separator pops that separator too: the
      path loses its root. */
  lemma LeadingDotDotDropsRoot(c: string)
    requires Segment(c)
    ensures Canonicalize("/../" + c) == c
  {
    var cs := ["/", "..", "/", c];
    assert Alternating(cs);
    assert Concat(cs[3..]) == c;
    assert Concat(cs[2..]) == "/" + c;
    assert Concat(cs[1..]) == "../" + c;
    assert Concat(cs) == "/../" + c;
    CanonicalizeChunks("/../" + c, cs);
    ResolveStepKept(cs, []);
    assert [] + ["/"] == ["/"];
    assert Skip2(cs[1..]) == cs[3..];
    assert Pop(Pop(["/"])) == [];
    assert Resolve(cs[1..], ["/"]) == Resolve(cs[3..], []);
    ResolveStepKept(cs[3..], []);
    assert [] + [c] == [c];
    assert Resolve(cs[3..], []) == [c];
    assert Concat([c]) == c;
    assert !IsSep(c[|c| - 1]);
  }

  // ---------------------------------------------------------------------
  // `.` and `..` between arbitrary paths

  /** The last run of a non-empty string has the kind of its last character. */
  lemma {:induction false} ChunksLast(s: string)
    requires |s| > 0
    ensures |Chunks(s)| > 0 && Kind(Chunks(s)[|Chunks(s)| - 1]) == IsSep(s[|s| - 1])
    decreases |s|
  {
    var k := RunLength(s);
    assert Chunks(s) == [s[..k]] + Chunks(s[k..]);
    if k < |s| {
      ChunksLast(s[k..]);
      assert s[k..][|s[k..]| - 1] == s[|s| - 1];
    } else {
      assert IsSep(s[|s| - 1]) == IsSep(s[0]);
    }
  }

  lemma AlternatingJoin(a: seq<string>, b: seq<string>)
    requires Alternating(a) && Alternating(b)
    requires |a| > 0 && |b| > 0 ==> Kind(a[|a| - 1]) != Kind(b[0])
    ensures Alternating(a + b)
  {
    var c := a + b;
    forall i | 0 <= i < |c|
      ensures SepRun(c[i]) || WordRun(c[i])
    {
      if i < |a| { assert c[i] == a[i]; } else { assert c[i] == b[i - |a|]; }
    }
    forall i | 0 < i < |c|
      ensures Kind(c[i - 1]) != Kind(c[i])
    {
      if i < |a| {
        assert c[i - 1] == a[i - 1] && c[i] == a[i];
      } else if i == |a| {
        assert c[i - 1] == a[|a| - 1] && c[i] == b[0];
      } else {
        assert c[i - 1] == b[i - 1 - |a|] && c[i] == b[i - |a|];
      }
    }
  }

  /** Any string is a part that ends in a non-separator (or is empty),
      then a run of separators; any other string is a run of separators,
      then a part that starts with a non-separator (or is empty). */
  lemma SplitEnds(p: string, q: string) returns (pw: string, ps: string, qs: string, qw: string)
    ensures p == pw + ps && q == qs + qw
    ensures forall i :: 0 <= i < |ps| ==> IsSep(ps[i])
    ensures forall i :: 0 <= i < |qs| ==> IsSep(qs[i])
    ensures pw == [] || !IsSep(pw[|pw| - 1])
    ensures qw == [] || !IsSep(qw[0])
  {
    pw := RTrimSeps(p);
    ps := p[|pw|..];
    assert p == pw + ps;
    forall i | 0 <= i < |ps|
      ensures IsSep(ps[i])
    {
      assert ps[i] == p[|pw| + i];
    }
    qw := DropLeadingSeps(q);
    qs := q[..|q| - |qw|];
    assert q == qs + qw;
  }

  /** The runs of a string whose middle is given as runs that begin and end
      with separators. */
  lemma AroundChunks(pw: string, m: seq<string>, qw: string) returns (cs: seq<string>)
    requires pw == [] || !IsSep(pw[|pw| - 1])
    requires qw == [] || !IsSep(qw[0])
    requires Alternating(m) && |m| > 0 && Kind(m[0]) && Kind(m[|m| - 1])
    ensures cs == Chunks(pw) + m + Chunks(qw)
    ensures Alternating(cs) && Concat(cs) == pw + Concat(m) + qw
  {
    cs := Chunks(pw) + m + Chunks(qw);
    AroundAlternating(pw, m, qw);
    AroundConcat(Chunks(pw), m, Chunks(qw));
  }

  lemma AroundAlternating(pw: string, m: seq<string>, qw: string)
    requires pw == [] || !IsSep(pw[|pw| - 1])
    requires qw == [] || !IsSep(qw[0])
    requires Alternating(m) && |m| > 0 && Kind(m[0]) && Kind(m[|m| - 1])
    ensures Alternating(Chunks(pw) + m + Chunks(qw))
  {
    JoinLeft(pw, m);
    var x := Chunks(pw) + m;
    assert x[|x| - 1] == m[|m| - 1];
    JoinRight(x, qw);
  }

  lemma JoinLeft(pw: string, m: seq<string>)
    requires pw == [] || !IsSep(pw[|pw| - 1])
    requires Alternating(m) && |m| > 0 && Kind(m[0])
    ensures Alternating(Chunks(pw) + m)
  {
    if |pw| > 0 {
      ChunksLast(pw);
    }
    AlternatingJoin(Chunks(pw), m);
  }

  lemma JoinRight(x: seq<string>, qw: string)
    requires qw == [] || !IsSep(qw[0])
    requires Alternating(x) && |x| > 0 && Kind(x[|x| - 1])
    ensures Alternating(x + Chunks(qw))
  {
    AlternatingJoin(x, Chunks(qw));
  }

  lemma AroundConcat(a: seq<string>, m: seq<string>, b: seq<string>)
    ensures Concat(a + m + b) == Concat(a) + Concat(m) + Concat(b)
  {
    ConcatAppend(a + m, b);
    ConcatAppend(a, m);
  }

  lemma SepRunJoin(a: string, b: string)
    requires forall i :: 0 <= i < |a| ==> IsSep(a[i])
    requires forall i :: 0 <= i < |b| ==> IsSep(b[i])
    ensures forall i :: 0 <= i < |a + b| ==> IsSep((a + b)[i])
  {
    forall i | 0 <= i < |a + b|
      ensures IsSep((a + b)[i])
    {
      if i < |a| { assert (a + b)[i] == a[i]; } else { assert (a + b)[i] == b[i - |a|]; }
    }
  }

  /** Whatever chunks come before them, two tails give the same result when
      the loop treats them alike, both when it enters them at their first
      chunk and when a `.` or `..` just before them skips that chunk. */
  lemma {:induction false} ResolveTails(pre: seq<string>, t1: seq<string>, t2: seq<string>, acc: seq<string>)
    requires |t1| > 0 && |t2| > 0
    requires forall a :: Resolve(t1, a) == Resolve(t2, a)
    requires forall a :: Resolve(t1[1..], a) == Resolve(t2[1..], a)
    ensures Resolve(pre + t1, acc) == Resolve(pre + t2, acc)
    decreases |pre|
  {
    if |pre| == 0 {
      assert pre + t1 == t1 && pre + t2 == t2;
    } else {
      var c := pre[0];
      assert (pre + t1)[0] == c && (pre + t2)[0] == c;
      assert (pre + t1)[1..] == pre[1..] + t1 && (pre + t2)[1..] == pre[1..] + t2;
      var next: seq<string>;
      if c == "." || (!StartsWithChar(c, '/') && !StartsWithChar(c, '\\') && c == "..") {
        next := if c == "." then acc else Pop(Pop(acc));
        if |pre| >= 2 {
          assert Skip2(pre + t1) == pre[2..] + t1 && Skip2(pre + t2) == pre[2..] + t2;
          ResolveTails(pre[2..], t1, t2, next);
        } else {
          assert Skip2(pre + t1) == t1[1..] && Skip2(pre + t2) == t2[1..];
        }
      } else {
        next := if StartsWithChar(c, '/') then acc + ["/"]
                else if StartsWithChar(c, '\\') then acc + ["\\"]
                else acc + [c];
        ResolveTails(pre[1..], t1, t2, next);
      }
    }
  }

  /** `s1 . s2 rest` and `s rest` resolve alike when `s1` and `s` begin with
      the same separator, and so do `. s2 rest` and `rest`. */
  lemma DotTails(s1: string, s: string, s2: string, b: seq<string>, a: seq<string>)
    requires SepRun(s1) && SepRun(s) && SepRun(s2) && s1[0] == s[0]
    ensures Resolve([s1, ".", s2] + b, a) == Resolve([s] + b, a)
    ensures Resolve([".", s2] + b, a) == Resolve(b, a)
  {
    var t := [s1, ".", s2] + b;
    ResolveStep(t, a);
    assert t[1..] == [".", s2] + b;
    assert Skip2([".", s2] + b) == b;
    ResolveStep([s] + b, a);
    assert ([s] + b)[1..] == b;
    assert CollapseChunk(s1) == [s1[0]] == CollapseChunk(s);
  }

  /** `s1 b / .. s3 rest` and `s rest` resolve alike when `s1` and `s`
      begin with the same separator, and so do `b / .. s3 rest` and `rest`. */
  lemma DotDotTails(s1: string, s: string, bw: string, s3: string, b: seq<string>, a: seq<string>)
    requires SepRun(s1) && SepRun(s) && SepRun(s3) && s1[0] == s[0] && Segment(bw)
    ensures Resolve([s1, bw, "/", "..", s3] + b, a) == Resolve([s] + b, a)
    ensures Resolve([bw, "/", "..", s3] + b, a) == Resolve(b, a)
  {
    var t := [s1, bw, "/", "..", s3] + b;
    var c := CollapseChunk(s1);
    ResolveStep(t, a);
    assert t[1..] == [bw, "/", "..", s3] + b;
    ResolveStep([s] + b, a);
    assert ([s] + b)[1..] == b;
    assert c == [s1[0]] == CollapseChunk(s);
    forall x: seq<string>
      ensures Resolve([bw, "/", "..", s3] + b, x) == Resolve(b, x)
    {
      var u := [bw, "/", "..", s3] + b;
      ResolveStepKept(u, x);
      assert u[1..] == ["/", "..", s3] + b;
      ResolveStepKept(u[1..], x + [bw]);
      assert u[1..][1..] == ["..", s3] + b;
      assert Skip2(["..", s3] + b) == b;
      assert Pop(Pop(x + [bw] + ["/"])) == x;
    }
  }

  /** A `/./` anywhere in a path has the effect of a single separator. */
  lemma DotSegmentAnywhere(p: string, q: string)
    ensures Canonicalize(p + "/./" + q) == Canonicalize(p + "/" + q)
  {
    var a, t1, t2 := DotRuns(p, q);
    CanonicalizeChunks(p + "/./" + q, a + t1);
    CanonicalizeChunks(p + "/" + q, a + t2);
    ResolveTails(a, t1, t2, []);
  }

  /** A segment followed by `/..` anywhere in a path has, together with the
      separators around it, the effect of a single separator. */
  lemma DotDotSegmentAnywhere(p: string, bw: string, q: string)
    requires Segment(bw)
    ensures Canonicalize(p + "/" + bw + "/../" + q) == Canonicalize(p + "/" + q)
  {
    var a, t1, t2 := DotDotRuns(p, bw, q);
    CanonicalizeChunks(p + "/" + bw + "/../" + q, a + t1);
    CanonicalizeChunks(p + "/" + q, a + t2);
    ResolveTails(a, t1, t2, []);
  }

  /** The runs of `p/./q` and of `p/q`: the same runs before and after a
      middle part that the loop treats alike. */
  lemma DotRuns(p: string, q: string) returns (a: seq<string>, t1: seq<string>, t2: seq<string>)
    ensures |t1| > 0 && |t2| > 0
    ensures Alternating(a + t1) && Concat(a + t1) == p + "/./" + q
    ensures Alternating(a + t2) && Concat(a + t2) == p + "/" + q
    ensures forall x :: Resolve(t1, x) == Resolve(t2, x)
    ensures forall x :: Resolve(t1[1..], x) == Resolve(t2[1..], x)
  {
    var pw, ps, qs, qw := SplitEnds(p, q);
    var m, n := DotMiddle(ps, qs);
    a, t1, t2 := Surround(pw, m, n, qw);
    DotString(pw, ps, qs, qw);
    SepString(pw, ps, qs, qw);
    DotTailsAll(ps + "/", ps + "/" + qs, "/" + qs, m, n, Chunks(qw));
  }

  /** The runs of `p/b/../q` and of `p/q`, split the same way. */
  lemma DotDotRuns(p: string, bw: string, q: string) returns (a: seq<string>, t1: seq<string>, t2: seq<string>)
    requires Segment(bw)
    ensures |t1| > 0 && |t2| > 0
    ensures Alternating(a + t1) && Concat(a + t1) == p + "/" + bw + "/../" + q
    ensures Alternating(a + t2) && Concat(a + t2) == p + "/" + q
    ensures forall x :: Resolve(t1, x) == Resolve(t2, x)
    ensures forall x :: Resolve(t1[1..], x) == Resolve(t2[1..], x)
  {
    var pw, ps, qs, qw := SplitEnds(p, q);
    var m, n := DotDotMiddle(ps, bw, qs);
    a, t1, t2 := Surround(pw, m, n, qw);
    DotDotString(pw, ps, bw, qs, qw);
    SepString(pw, ps, qs, qw);
    DotDotTailsAll(ps + "/", ps + "/" + qs, bw, "/" + qs, m, n, Chunks(qw));
  }

  /** The middle runs `ps/ . /qs` and `ps/qs`. */
  lemma DotMiddle(ps: string, qs: string) returns (m: seq<string>, n: seq<string>)
    requires forall i :: 0 <= i < |ps| ==> IsSep(ps[i])
    requires forall i :: 0 <= i < |qs| ==> IsSep(qs[i])
    ensures m == [ps + "/", ".", "/" + qs] && n == [ps + "/" + qs]
    ensures Alternating(m) && Kind(m[0]) && Kind(m[|m| - 1]) && Concat(m) == (ps + "/") + "." + ("/" + qs)
    ensures Alternating(n) && Kind(n[0]) && Concat(n) == ps + "/" + qs
  {
    SepRunJoin(ps, "/");
    SepRunJoin("/", qs);
    SepRunJoin(ps + "/", qs);
    m, n := [ps + "/", ".", "/" + qs], [ps + "/" + qs];
    Concat3(ps + "/", ".", "/" + qs);
    ConcatSingle(ps + "/" + qs);
  }

  /** The middle runs `ps/ b / .. /qs` and `ps/qs`. */
  lemma DotDotMiddle(ps: string, bw: string, qs: string) returns (m: seq<string>, n: seq<string>)
    requires Segment(bw)
    requires forall i :: 0 <= i < |ps| ==> IsSep(ps[i])
    requires forall i :: 0 <= i < |qs| ==> IsSep(qs[i])
    ensures m == [ps + "/", bw, "/", "..", "/" + qs] && n == [ps + "/" + qs]
    ensures Alternating(m) && Kind(m[0]) && Kind(m[|m| - 1]) && Concat(m) == (ps + "/") + bw + "/" + ".." + ("/" + qs)
    ensures Alternating(n) && Kind(n[0]) && Concat(n) == ps + "/" + qs
  {
    SepRunJoin(ps, "/");
    SepRunJoin("/", qs);
    SepRunJoin(ps + "/", qs);
    m, n := [ps + "/", bw, "/", "..", "/" + qs], [ps + "/" + qs];
    ConcatDotDotRuns(ps + "/", bw, "/" + qs, m);
    ConcatSingle(ps + "/" + qs);
  }

  /** Two middles between the same outer runs. */
  lemma Surround(pw: string, m: seq<string>, n: seq<string>, qw: string) returns (a: seq<string>, t1: seq<string>, t2: seq<string>)
    requires pw == [] || !IsSep(pw[|pw| - 1])
    requires qw == [] || !IsSep(qw[0])
    requires Alternating(m) && |m| > 0 && Kind(m[0]) && Kind(m[|m| - 1])
    requires Alternating(n) && |n| > 0 && Kind(n[0]) && Kind(n[|n| - 1])
    ensures a == Chunks(pw) && t1 == m + Chunks(qw) && t2 == n + Chunks(qw)
    ensures Alternating(a + t1) && Concat(a + t1) == pw + Concat(m) + qw
    ensures Alternating(a + t2) && Concat(a + t2) == pw + Concat(n) + qw
  {
    var cm := AroundChunks(pw, m, qw);
    var cn := AroundChunks(pw, n, qw);
    a, t1, t2 := Chunks(pw), m + Chunks(qw), n + Chunks(qw);
    SeqAssoc(a, m, Chunks(qw));
    SeqAssoc(a, n, Chunks(qw));
  }

  lemma DotTailsAll(s1: string, s: string, s2: string, m: seq<string>, n: seq<string>, b: seq<string>)
    requires SepRun(s1) && SepRun(s) && SepRun(s2) && s1[0] == s[0]
    requires m == [s1, ".", s2] && n == [s]
    ensures forall x :: Resolve(m + b, x) == Resolve(n + b, x)
    ensures forall x :: Resolve((m + b)[1..], x) == Resolve((n + b)[1..], x)
  {
    assert (m + b)[1..] == [".", s2] + b && (n + b)[1..] == b;
    forall x: seq<string>
      ensures Resolve(m + b, x) == Resolve(n + b, x)
      ensures Resolve((m + b)[1..], x) == Resolve((n + b)[1..], x)
    {
      DotTails(s1, s, s2, b, x);
    }
  }

  lemma DotDotTailsAll(s1: string, s: string, bw: string, s3: string, m: seq<string>, n: seq<string>, b: seq<string>)
    requires SepRun(s1) && SepRun(s) && SepRun(s3) && s1[0] == s[0] && Segment(bw)
    requires m == [s1, bw, "/", "..", s3] && n == [s]
    ensures forall x :: Resolve(m + b, x) == Resolve(n + b, x)
    ensures forall x :: Resolve((m + b)[1..], x) == Resolve((n + b)[1..], x)
  {
    assert (m + b)[1..] == [bw, "/", "..", s3] + b && (n + b)[1..] == b;
    forall x: seq<string>
      ensures Resolve(m + b, x) == Resolve(n + b, x)
      ensures Resolve((m + b)[1..], x) == Resolve((n + b)[1..], x)
    {
      DotDotTails(s1, s, bw, s3, b, x);
    }
  }

  lemma ConcatSingle(s: string)
    ensures Concat([s]) == s
  {
    assert [s][1..] == [];
  }

  lemma ConcatDotDotRuns(s1: string, bw: string, s3: string, m: seq<string>)
    requires m == [s1, bw, "/", "..", s3]
    ensures Concat(m) == s1 + bw + "/" + ".." + s3
  {
    assert Concat(m[4..]) == s3 + Concat([]);
    assert Concat(m[3..]) == ".." + Concat(m[4..]);
    assert Concat(m[2..]) == "/" + Concat(m[3..]);
    assert Concat(m[1..]) == bw + Concat(m[2..]);
  }

  lemma SepString(pw: string, ps: string, qs: string, qw: string)
    ensures pw + (ps + "/" + qs) + qw == (pw + ps) + "/" + (qs + qw)
  {
  }

  lemma DotString(pw: string, ps: string, qs: string, qw: string)
    ensures pw + ((ps + "/") + "." + ("/" + qs)) + qw == (pw + ps) + "/./" + (qs + qw)
  {
    assert "/./" == "/" + "." + "/";
  }

  lemma DotDotString(pw: string, ps: string, bw: string, qs: string, qw: string)
    ensures pw + ((ps + "/") + bw + "/" + ".." + ("/" + qs)) + qw == (pw + ps) + "/" + bw + "/../" + (qs + qw)
  {
    assert "/../" == "/" + ".." + "/";
  }
}
