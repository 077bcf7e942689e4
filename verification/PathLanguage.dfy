/** The path parser accepts exactly the sentences of the grammar, and reads them as they mean. */
module PathLanguage {
  import opened Common
  import opened PathSyntax
  import opened PathGrammar
  import opened PathRecognizer
  import PathLaws

  // ----- many parts

  /** How the first of the parts may be placed. */
  predicate Placed(s: string, o: Options, p: Parser, ps: seq<Part>)
    requires p.i <= |s|
  {
    ps != [] ==>
      && (ps[0].Separator? ==> PathLaws.AtEnd(s, o, p))
      && (ps[0].Star? ==> p.i == 0 || s[p.i - 1] == '/')
  }

  /** The wildcards and multi-paths among the parts may still come. */
  predicate Allowed(p: Parser, ps: seq<Part>) {
    && Stars(ps) <= (if p.wildcardOk then 1 else 0)
    && Brackets(ps) <= (if p.multiOk then 1 else 0)
  }

  /** The features with all the parts, when `k` elements came before. */
  function AddParts(f: Features, ps: seq<Part>, k: nat): Features {
    Features(f.isBare, f.isHardened || AnyHardened(ps), f.isWildcard || Stars(ps) > 0, f.isMulti || Brackets(ps) > 0,
             if Stars(ps) > 0 then k + StarAt(ps) else f.wildcardPos,
             if Brackets(ps) > 0 then ItemCount(ps) else f.multiCount)
  }

  lemma {:induction false} AddPartsFirst(f: Features, ps: seq<Part>, o: Options, k: nat)
    requires ps != [] && Stars(ps) <= 1 && Brackets(ps) <= 1
    ensures AddParts(AddPart(f, ps[0], k), ps[1..], k + |Value(ps[0], o)|) == AddParts(f, ps, k)
  {
  }

  /** The whole of the parse. */
  predicate ReadsAll(o: Options, p: Parser, ps: seq<Part>, q: Option<Parser>) {
    && q.Some? && q.value.path == p.path + Values(ps, o)
    && q.value.features == AddParts(p.features, ps, |p.path|)
  }

  lemma {:induction false} ReadsAllFirst(s: string, o: Options, p: Parser, ps: seq<Part>, q: Parser,
        r: Option<Parser>, rest: string)
    requires ps != [] && Allowed(p, ps)
    requires Reads(s, o, p, ps[0], Some(q), rest) && ReadsAll(o, q, ps[1..], r)
    ensures ReadsAll(o, p, ps, r)
  {
    AddPartsFirst(p.features, ps, o, |p.path|);
    assert p.path + (Value(ps[0], o) + Values(ps[1..], o)) == (p.path + Value(ps[0], o)) + Values(ps[1..], o);
  }

  lemma GoodPartsRest(ps: seq<Part>, o: Options)
    requires ps != [] && GoodParts(ps, o)
    ensures GoodPart(ps[0], o) && GoodParts(ps[1..], o)
    ensures if |ps| == 1 then !ps[0].Separator? else Follows(ps[0], ps[1..][0])
  {
    assert forall k :: 0 < k < |ps[1..]| ==> ps[1..][k - 1] == ps[k] && ps[1..][k] == ps[k + 1];
  }

  lemma GoodPartsCons(x: Part, ps: seq<Part>, o: Options)
    requires GoodPart(x, o) && GoodParts(ps, o)
    requires if ps == [] then !x.Separator? else Follows(x, ps[0])
    ensures GoodParts([x] + ps, o)
  {
    var qs := [x] + ps;
    forall k | 0 < k < |qs| ensures Follows(qs[k - 1], qs[k]) {
      if k > 1 {
        assert qs[k - 1] == ps[k - 2] && qs[k] == ps[k - 1];
      }
    }
  }

  /** The parts that come next end this one. */
  lemma {:induction false} NextEnds(x: Part, ps: seq<Part>, o: Options)
    requires GoodPart(x, o) && GoodParts(ps, o)
    requires if ps == [] then !x.Separator? else Follows(x, ps[0])
    ensures CanEnd(x, o.upper, Sentence(ps))
  {
    if ps != [] {
      PartBegins(ps[0], o);
      assert Sentence(ps)[0] == PartText(ps[0])[0];
    }
  }

  /** And are placed behind it. */
  lemma {:induction false} NextPlaced(s: string, o: Options, i: nat, x: Part, q: Parser, ps: seq<Part>)
    requires i <= q.i <= |s| && s[i..] == PartText(x) + s[q.i..] && GoodPart(x, o)
    requires ps != [] ==> Follows(x, ps[0])
    requires IsHardened(x) ==> q.features.isHardened
    ensures Placed(s, o, q, ps)
  {
    PartEnds(s, i, x, o, q.i);
  }

  lemma {:induction false} StartsPart(s: string, o: Options, p: Parser, ps: seq<Part>)
    requires p.i <= |s| && ps != [] && Placed(s, o, p, ps) && Allowed(p, ps)
    ensures CanStart(s, o, p, ps[0])
  {
  }

  lemma {:induction false} AllowedRest(s: string, o: Options, p: Parser, ps: seq<Part>, q: Parser, rest: string)
    requires ps != [] && Allowed(p, ps) && Reads(s, o, p, ps[0], Some(q), rest)
    ensures Allowed(q, ps[1..])
  {
  }

  lemma {:induction false} RunStep(s: string, o: Options, p: Parser, q: Parser)
    requires p.i < |s| && Step(s, o, p) == Some(q)
    ensures p.i < q.i <= |s| && Run(s, o, p) == Run(s, o, q)
  {
  }

  /** The main loop reads all the parts. */
  lemma {:induction false} RunsParts(s: string, o: Options, p: Parser, ps: seq<Part>)
    requires p.i <= |s| && s[p.i..] == Sentence(ps) && GoodParts(ps, o) && Placed(s, o, p, ps) && Allowed(p, ps)
    ensures ReadsAll(o, p, ps, Run(s, o, p))
    decreases |ps|
  {
    if ps == [] {
      assert p.i == |s| && p.path + [] == p.path;
    } else {
      var x, t := ps[0], Sentence(ps[1..]);
      GoodPartsRest(ps, o);
      NextEnds(x, ps[1..], o);
      StartsPart(s, o, p, ps);
      ReadsPart(s, o, p, x, t);
      var q := Step(s, o, p).value;
      RunStep(s, o, p, q);
      NextPlaced(s, o, p.i, x, q, ps[1..]);
      AllowedRest(s, o, p, ps, q, t);
      RunsParts(s, o, q, ps[1..]);
      ReadsAllFirst(s, o, p, ps, q, Run(s, o, q), t);
    }
  }

  // ----- and back

  /** Where the loop is between two parts: at the start, not at a slash, or behind a part. */
  predicate Between(s: string, o: Options, p: Parser)
    requires p.i <= |s|
  {
    if p.i == 0 then s != "" ==> s[0] != '/' else IsMark(s[p.i - 1], o.upper) ==> p.features.isHardened
  }

  lemma {:induction false} FollowsPart(s: string, o: Options, i: nat, x: Part, q: Parser, ps: seq<Part>)
    requires i <= q.i <= |s| && s[i..] == PartText(x) + s[q.i..] && GoodPart(x, o)
    requires s[q.i..] == Sentence(ps) && CanEnd(x, o.upper, Sentence(ps)) && GoodParts(ps, o) && Placed(s, o, q, ps)
    ensures if ps == [] then !x.Separator? else Follows(x, ps[0])
  {
    PartEnds(s, i, x, o, q.i);
    if ps != [] {
      PartBegins(ps[0], o);
      assert Sentence(ps)[0] == PartText(ps[0])[0];
    }
  }

  lemma {:induction false} AllowedCons(s: string, o: Options, p: Parser, x: Part, ps: seq<Part>, q: Parser,
                                       rest: string)
    requires p.i <= |s| && CanStart(s, o, p, x) && Reads(s, o, p, x, Some(q), rest) && Allowed(q, ps)
    ensures Allowed(p, [x] + ps)
  {
    assert ([x] + ps)[1..] == ps;
  }

  /** What a run that does not fail has read. */
  lemma {:induction false} PartsOf(s: string, o: Options, p: Parser) returns (ps: seq<Part>)
    requires p.i <= |s| && Run(s, o, p).Some? && Between(s, o, p)
    ensures s[p.i..] == Sentence(ps) && GoodParts(ps, o) && Placed(s, o, p, ps) && Allowed(p, ps)
    decreases |s| - p.i
  {
    if p.i == |s| {
      ps := [];
    } else {
      var q := Step(s, o, p).value;
      var x := PartOf(s, o, p, q.i);
      ReadsPart(s, o, p, x, s[q.i..]);
      PartEnds(s, p.i, x, o, q.i);
      RunStep(s, o, p, q);
      var t := PartsOf(s, o, q);
      FollowsPart(s, o, p.i, x, q, t);
      GoodPartsCons(x, t, o);
      AllowedCons(s, o, p, x, t, q, s[q.i..]);
      ps := [x] + t;
      assert ps[1..] == t;
    }
  }

  // ----- whole strings

  lemma {:induction false} HeaderEndIs(h: string, t: string, o: Options)
    requires GoodHeader(h, o) && t != "" && t[0] != '/' && t[0] != 'm' && t[0] != 'M'
    ensures HeaderEnd(h + t, o.upper) == (if o.bare then 0 else |h|) && (h + t)[0] == (if h == "" then t[0] else h[0])
  {
    var s := h + t;
    assert s[|h|] == t[0];
    if h != "" {
      assert s[0] == h[0];
    }
    if |h| == 2 {
      assert s[1] == h[1];
    }
  }

  lemma {:induction false} HeaderOf(h: string, ps: seq<Part>, o: Options)
    requires IsSentence(h, ps, o)
    ensures var s := h + Sentence(ps);
            && s != "" && s[|h|..] == Sentence(ps)
            && Start(s, o) ==
               Some(Parser(|h|, [], Features(h == "", false, false, false, 0, 0), o.wildcard, o.multipath))
  {
    var t := Sentence(ps);
    PartBegins(ps[0], o);
    assert t[0] == PartText(ps[0])[0];
    HeaderEndIs(h, t, o);
  }

  lemma {:induction false} ValuesNotEmpty(ps: seq<Part>, o: Options)
    requires ps != [] && !ps[0].Separator?
    ensures |Values(ps, o)| >= 1
  {
    assert |Value(ps[0], o)| == 1;
  }

  lemma AllRead(o: Options, p: Parser, ps: seq<Part>, q: Parser)
    requires ReadsAll(o, p, ps, Some(q)) && p.path == []
    ensures q.path == Values(ps, o) && q.features == AddParts(p.features, ps, 0)
  {
    assert [] + Values(ps, o) == Values(ps, o);
  }

  lemma {:induction false} SentenceIsAccepted(h: string, ps: seq<Part>, o: Options, p: Parser, q: Parser)
    requires IsSentence(h, ps, o) && p.path == [] && p.features == Features(h == "", false, false, false, 0, 0)
    requires ReadsAll(o, p, ps, Some(q))
    ensures Accepted(o, q) && Parsed(q.path, q.features) == Meaning(h, ps, o)
  {
    ValuesNotEmpty(ps, o);
    AllRead(o, p, ps, q);
  }

  /** A string, its header and its parts. */
  predicate Spells(s: string, h: string, ps: seq<Part>, o: Options) {
    s == h + Sentence(ps) && IsSentence(h, ps, o)
  }

  /** Every sentence is accepted, and its path and features are read off its parts. */
  lemma {:induction false} ReadAsMeant(s: string, h: string, ps: seq<Part>, o: Options)
    requires Spells(s, h, ps, o)
    ensures Parse(s, o) == Some(Meaning(h, ps, o))
  {
    HeaderOf(h, ps, o);
    var p := Start(s, o).value;
    RunsParts(s, o, p, ps);
    SentenceIsAccepted(h, ps, o, p, Run(s, o, p).value);
  }

  lemma {:induction false} HeaderIsGood(s: string, o: Options)
    requires s != "" && Start(s, o).Some?
    ensures var p := Start(s, o).value;
            && GoodHeader(s[..p.i], o) && p.path == [] && Between(s, o, p)
            && p.features == Features(p.i == 0, false, false, false, 0, 0)
            && p.wildcardOk == o.wildcard && p.multiOk == o.multipath
            && !PathLaws.AtEnd(s, o, p)
  {
  }

  /** A run from the beginning that ends in a state that is accepted. */
  predicate Accepts(s: string, o: Options, p: Parser, q: Parser) {
    && p.i <= |s| && GoodHeader(s[..p.i], o) && ValidOptions(o) && p.path == [] && Between(s, o, p)
    && p.features == Features(p.i == 0, false, false, false, 0, 0) && !PathLaws.AtEnd(s, o, p)
    && p.wildcardOk == o.wildcard && p.multiOk == o.multipath && Accepted(o, q)
  }

  lemma {:induction false} ParseIsRun(s: string, o: Options) returns (p: Parser, q: Parser)
    requires Parse(s, o).Some?
    ensures Accepts(s, o, p, q) && Run(s, o, p) == Some(q)
  {
    HeaderIsGood(s, o);
    p := Start(s, o).value;
    q := Run(s, o, p).value;
  }

  lemma {:induction false} AcceptedIsSentence(s: string, h: string, ps: seq<Part>, o: Options, p: Parser, q: Parser)
    requires Accepts(s, o, p, q) && h == s[..p.i]
    requires q.path == Values(ps, o) && q.features == AddParts(p.features, ps, 0)
    requires GoodParts(ps, o) && Placed(s, o, p, ps) && Allowed(p, ps)
    ensures IsSentence(h, ps, o)
  {
  }

  lemma {:induction false} SentenceOfRun(s: string, o: Options, p: Parser, q: Parser) returns (ps: seq<Part>)
    requires Accepts(s, o, p, q) && Run(s, o, p) == Some(q)
    ensures Spells(s, s[..p.i], ps, o)
  {
    ps := PartsOf(s, o, p);
    RunsParts(s, o, p, ps);
    AllRead(o, p, ps, q);
    AcceptedIsSentence(s, s[..p.i], ps, o, p, q);
    assert s == s[..p.i] + s[p.i..];
  }

  /** The header and the parts of an accepted string. */
  lemma {:induction false} SentenceOf(s: string, o: Options) returns (h: string, ps: seq<Part>)
    requires Parse(s, o).Some?
    ensures Spells(s, h, ps, o)
  {
    var p, q := ParseIsRun(s, o);
    ps := SentenceOfRun(s, o, p, q);
    h := s[..p.i];
  }

  /** The strings of the grammar. */
  ghost predicate IsPathString(s: string, o: Options) {
    exists h, ps :: Spells(s, h, ps, o)
  }

  /** A string is accepted exactly when it is a sentence of the grammar. */
  lemma {:induction false} AcceptedExactly(s: string, o: Options)
    ensures Parse(s, o).Some? <==> IsPathString(s, o)
  {
    if Parse(s, o).Some? {
      var h, ps := SentenceOf(s, o);
    }
    if IsPathString(s, o) {
      var h, ps :| Spells(s, h, ps, o);
      ReadAsMeant(s, h, ps, o);
    }
  }
}
