/**
 * The parsing half of `getDossiers`: the provider's response is split on the
 * delimiter, each piece is trimmed, the piece before the first delimiter is
 * dropped, and the rest are handed out by position to the sorted suspect names.
 */
module Dossiers {
  import opened Optional
  import opened Text
  import opened Order
  import opened Provider

  /** What `getDossiers` returns: the object of dossier texts by name (a name whose
      segment is missing is bound to `undefined`), or `[]` when the provider failed. */
  datatype CaseFile = Files(dossiers: map<string, Option<string>>) | NoFiles

  /** `response.split('---').map(trim).slice(1)`. */
  function Segments(response: string): (segs: seq<string>)
    ensures |segs| == |Split(response, Delimiter)| - 1
    ensures forall k :: 0 <= k < |segs| ==> segs[k] == Trim(Split(response, Delimiter)[k + 1])
    ensures forall k :: 0 <= k < |segs| ==> Bare(segs[k])
  {
    TrimEach(Split(response, Delimiter)[1..])
  }

  /** `pieces.map((dossier) => dossier.trim())`. */
  function TrimEach(pieces: seq<string>): (r: seq<string>)
    ensures |r| == |pieces|
    ensures forall k :: 0 <= k < |r| ==> r[k] == Trim(pieces[k]) && Bare(r[k])
  {
    seq(|pieces|, k requires 0 <= k < |pieces| => Trim(pieces[k]))
  }

  /** No dossier segment holds the delimiter. */
  lemma SegmentsClean(response: string)
    ensures forall k :: 0 <= k < |Segments(response)| ==> !Contains(Segments(response)[k], Delimiter)
  {
    var parts := Split(response, Delimiter);
    var segs := Segments(response);
    SplitPiecesClean(response, Delimiter);
    forall k | 0 <= k < |segs| ensures !Contains(segs[k], Delimiter) {
      assert !Contains(parts[k + 1], Delimiter);
      TrimKeepsOut(parts[k + 1], Delimiter);
    }
  }

  /** `dossiers[i]`: the i-th segment, `undefined` past the end. */
  function At(segs: seq<string>, i: nat): (r: Option<string>)
    ensures r.Some? <==> i < |segs|
    ensures r.Some? ==> r.value == segs[i]
  {
    if i < |segs| then Some(segs[i]) else None
  }

  /** `result[sorted[0]] = dossiers[0]` and so on for the first three names: each
      of them is a key, later assignments overwrite earlier ones for a repeated
      name, and segments past the third are never read. */
  function Assign(sorted: seq<string>, segs: seq<string>): (r: map<string, Option<string>>)
    requires |sorted| >= 3
    ensures r.Keys == {sorted[0], sorted[1], sorted[2]}
    ensures r[sorted[2]] == At(segs, 2)
    ensures sorted[1] != sorted[2] ==> r[sorted[1]] == At(segs, 1)
    ensures sorted[0] != sorted[1] && sorted[0] != sorted[2] ==> r[sorted[0]] == At(segs, 0)
  {
    map[][sorted[0] := At(segs, 0)][sorted[1] := At(segs, 1)][sorted[2] := At(segs, 2)]
  }

  /** The outcome of `getDossiers` for the given suspect names and provider reply. */
  function ParseDossiers(names: seq<string>, reply: Reply): (r: CaseFile)
    requires |names| >= 3
    ensures r.NoFiles? <==> reply.Unavailable?
    ensures r.Files? ==> r.dossiers.Keys == {Sort(names)[0], Sort(names)[1], Sort(names)[2]}
    ensures r.Files? ==> r.dossiers[Sort(names)[2]] == At(Segments(reply.text), 2)
    ensures r.Files? && Sort(names)[1] != Sort(names)[2] ==>
      r.dossiers[Sort(names)[1]] == At(Segments(reply.text), 1)
    ensures r.Files? && Sort(names)[0] != Sort(names)[1] && Sort(names)[0] != Sort(names)[2] ==>
      r.dossiers[Sort(names)[0]] == At(Segments(reply.text), 0)
  {
    match reply
    case Unavailable => NoFiles
    case Answer(text) =>
      Files(Assign(Sort(names), Segments(text)))
  }

  /** A response laid out as asked (a preamble, then three dossiers each introduced
      by the delimiter) gives every suspect, in sorted order, the trimmed text of its
      own dossier. */
  lemma WellFormedResponse(names: seq<string>, pre: string, t0: string, t1: string, t2: string)
    requires |names| >= 3
    requires Sort(names)[0] != Sort(names)[1] && Sort(names)[0] != Sort(names)[2]
    requires Sort(names)[1] != Sort(names)[2]
    requires !Contains(pre, Delimiter) && (pre == [] || pre[|pre| - 1] != '-')
    requires !Contains(t0, Delimiter) && (t0 == [] || t0[|t0| - 1] != '-')
    requires !Contains(t1, Delimiter) && (t1 == [] || t1[|t1| - 1] != '-')
    requires !Contains(t2, Delimiter)
    ensures ParseDossiers(names, Answer(pre + Delimiter + (t0 + Delimiter + (t1 + Delimiter + t2))))
         == Files(map[Sort(names)[0] := Some(Trim(t0)),
                      Sort(names)[1] := Some(Trim(t1)),
                      Sort(names)[2] := Some(Trim(t2))])
  {
    var response := pre + Delimiter + (t0 + Delimiter + (t1 + Delimiter + t2));
    SplitFourPieces(pre, t0, t1, t2);
    SegmentsOfFour(response, pre, t0, t1, t2);
    AssignThree(Sort(names), Trim(t0), Trim(t1), Trim(t2));
  }

  /** A response with no delimiter at all still yields a case file, in which every
      sorted name is present and bound to `undefined`. */
  lemma NoDelimiterNoDossiers(names: seq<string>, response: string)
    requires |names| >= 3 && !Contains(response, Delimiter)
    ensures ParseDossiers(names, Answer(response)).Files?
    ensures forall name :: name in ParseDossiers(names, Answer(response)).dossiers ==>
      ParseDossiers(names, Answer(response)).dossiers[name] == None
  {
    SplitWithout(response, Delimiter);
    assert Segments(response) == [];
  }

  lemma SegmentsOfFour(response: string, pre: string, t0: string, t1: string, t2: string)
    requires Split(response, Delimiter) == [pre, t0, t1, t2]
    ensures Segments(response) == [Trim(t0), Trim(t1), Trim(t2)]
  {
    var parts := Split(response, Delimiter);
    var segs := Segments(response);
    assert |segs| == |parts| - 1 == 3;
    assert segs[0] == Trim(parts[1]) && parts[1] == t0;
    assert segs[1] == Trim(parts[2]) && parts[2] == t1;
    assert segs[2] == Trim(parts[3]) && parts[3] == t2;
    ThreeElements(segs);
  }

  lemma ThreeElements(s: seq<string>)
    requires |s| == 3
    ensures s == [s[0], s[1], s[2]]
  {
  }

  lemma AssignThree(sorted: seq<string>, d0: string, d1: string, d2: string)
    requires |sorted| >= 3
    requires sorted[0] != sorted[1] && sorted[0] != sorted[2] && sorted[1] != sorted[2]
    ensures Assign(sorted, [d0, d1, d2]) == map[sorted[0] := Some(d0), sorted[1] := Some(d1), sorted[2] := Some(d2)]
  {
  }

  /** The response of a well-formed answer splits into its preamble and its three dossiers. */
  lemma SplitFourPieces(pre: string, t0: string, t1: string, t2: string)
    requires !Contains(pre, Delimiter) && (pre == [] || pre[|pre| - 1] != '-')
    requires !Contains(t0, Delimiter) && (t0 == [] || t0[|t0| - 1] != '-')
    requires !Contains(t1, Delimiter) && (t1 == [] || t1[|t1| - 1] != '-')
    requires !Contains(t2, Delimiter)
    ensures Split(pre + Delimiter + (t0 + Delimiter + (t1 + Delimiter + t2)), Delimiter) == [pre, t0, t1, t2]
  {
    SplitThreePieces(t0, t1, t2);
    SplitOnDelimiter(pre, t0 + Delimiter + (t1 + Delimiter + t2));
  }

  lemma SplitThreePieces(t0: string, t1: string, t2: string)
    requires !Contains(t0, Delimiter) && (t0 == [] || t0[|t0| - 1] != '-')
    requires !Contains(t1, Delimiter) && (t1 == [] || t1[|t1| - 1] != '-')
    requires !Contains(t2, Delimiter)
    ensures Split(t0 + Delimiter + (t1 + Delimiter + t2), Delimiter) == [t0, t1, t2]
  {
    SplitTwoPieces(t1, t2);
    SplitOnDelimiter(t0, t1 + Delimiter + t2);
  }

  lemma SplitTwoPieces(t1: string, t2: string)
    requires !Contains(t1, Delimiter) && (t1 == [] || t1[|t1| - 1] != '-')
    requires !Contains(t2, Delimiter)
    ensures Split(t1 + Delimiter + t2, Delimiter) == [t1, t2]
  {
    SplitWithout(t2, Delimiter);
    SplitOnDelimiter(t1, t2);
  }

  /** A text without a dash holds no delimiter and does not end in a dash. */
  lemma DashFree(s: string)
    requires '-' !in s
    ensures !Contains(s, Delimiter) && (s == [] || s[|s| - 1] != '-')
  {
    forall i: nat ensures !IsAt(s, Delimiter, i) {
      if i + 3 <= |s| {
        assert s[i..i + 3][0] == s[i];
      }
    }
  }

  /** The layout the dossier prompt asks for, with the suspects given out of order:
      each sorted name receives its own dossier, without the surrounding newlines. */
  lemma ThreeDossiersExample(names: seq<string>, response: string)
    requires names == ["Carol", "Alice", "Bob"]
    requires response == "preamble\n---\nA text\n---\nB text\n---\nC text"
    ensures ParseDossiers(names, Answer(response))
         == Files(map["Alice" := Some("A text"), "Bob" := Some("B text"), "Carol" := Some("C text")])
  {
    var nl := "\n";
    var pre, t0, t1, t2 := "preamble" + nl, nl + "A text" + nl, nl + "B text" + nl, nl + "C text" + "";
    ExampleLayout(response);
    ExampleOrder(names);
    ExamplePieces(pre, t0, t1, t2);
    WellFormedResponse(names, pre, t0, t1, t2);
  }

  lemma ExamplePieces(pre: string, t0: string, t1: string, t2: string)
    requires pre == "preamble" + "\n"
    requires t0 == "\n" + "A text" + "\n" && t1 == "\n" + "B text" + "\n" && t2 == "\n" + "C text" + ""
    ensures !Contains(pre, Delimiter) && pre[|pre| - 1] != '-'
    ensures !Contains(t0, Delimiter) && t0[|t0| - 1] != '-'
    ensures !Contains(t1, Delimiter) && t1[|t1| - 1] != '-'
    ensures !Contains(t2, Delimiter)
    ensures Trim(t0) == "A text" && Trim(t1) == "B text" && Trim(t2) == "C text"
  {
    DashFree(pre);
    DashFree(t0);
    DashFree(t1);
    DashFree(t2);
    ExampleTrims(t0, t1, t2);
  }

  lemma ExampleTrims(t0: string, t1: string, t2: string)
    requires t0 == "\n" + "A text" + "\n" && t1 == "\n" + "B text" + "\n" && t2 == "\n" + "C text" + ""
    ensures Trim(t0) == "A text" && Trim(t1) == "B text" && Trim(t2) == "C text"
  {
    assert Bare("A text") && Bare("B text") && Bare("C text");
    TrimNewlines("A text");
    TrimNewlines("B text");
    TrimNewlines("C text");
  }

  /** A bare text on its own line is trimmed back to itself. */
  lemma TrimNewlines(r: string)
    requires Bare(r)
    ensures Trim("\n" + r + "\n") == r && Trim("\n" + r + "") == r
  {
    assert Blank("\n") && Blank("");
    TrimAround(r, "\n", "\n");
    TrimAround(r, "\n", "");
  }

  lemma ExampleLayout(response: string)
    requires response == "preamble\n---\nA text\n---\nB text\n---\nC text"
    ensures response == ("preamble" + "\n") + Delimiter + (("\n" + "A text" + "\n") + Delimiter
                        + (("\n" + "B text" + "\n") + Delimiter + ("\n" + "C text" + "")))
  {
  }

  lemma ExampleOrder(names: seq<string>)
    requires names == ["Carol", "Alice", "Bob"]
    ensures Sort(names) == ["Alice", "Bob", "Carol"]
  {
    assert Less("Alice", "Bob") && Less("Bob", "Carol");
    SortThree("Alice", "Bob", "Carol");
  }

  /** Three strings in increasing order, given last-first-second, sort back into order. */
  lemma SortThree(a: string, b: string, c: string)
    requires Less(a, b) && Less(b, c)
    ensures Sort([c, a, b]) == [a, b, c]
  {
    LessTransitive(a, b, c);
    SortTwo(a, b);
    assert [c, a, b][1..] == [a, b];
    InsertAfterTwo(c, a, b);
  }

  lemma SortTwo(a: string, b: string)
    requires Less(a, b)
    ensures Sort([a, b]) == [a, b]
  {
    assert [a, b][1..] == [b] && [b][1..] == [];
    assert Sort([b]) == [b];
  }

  lemma InsertAfterTwo(c: string, a: string, b: string)
    requires Less(a, b) && Less(a, c) && Less(b, c)
    ensures Insert(c, [a, b]) == [a, b, c]
  {
    LessAsymmetric(a, c);
    LessAsymmetric(b, c);
    assert [a, b][1..] == [b] && [b][1..] == [];
    assert Insert(c, [b]) == [b, c];
  }

  /** A bare text with only whitespace around it trims to itself. */
  lemma TrimAround(r: string, lead: string, trail: string)
    requires Bare(r) && Blank(lead) && Blank(trail)
    ensures Trim(lead + r + trail) == r
  {
    var s := lead + r + trail;
    assert s[|lead|..|lead| + |r|] == r;
    assert s[..|lead|] == lead;
    assert s[|lead| + |r|..] == trail;
    TrimIsUnique(s, r, |lead|);
  }
}
