/**
 * parseDirectives (resolver.go:334-354): a field's tag value is trimmed,
 * split on ';', every piece is trimmed and the empty ones are dropped, the
 * rest go to the external ParseDirective in order, and a directive name
 * that was already seen on the field is refused.
 */
module Directives {
  import opened Wrappers
  import opened Strings
  import opened Types

  /** The trimmed pieces that survive the `directive == ""` test, in order. */
  function NonEmpty(pieces: seq<string>): (segs: seq<string>)
    ensures |segs| <= |pieces|
    ensures forall k :: 0 <= k < |segs| ==> segs[k] != ""
  {
    if |pieces| == 0 then []
    else
      var seg := TrimSpace(pieces[0]);
      if seg == "" then NonEmpty(pieces[1..]) else [seg] + NonEmpty(pieces[1..])
  }

  /** The segments of a tag that reach ParseDirective. */
  function Segments(tag: string): seq<string> {
    NonEmpty(Split(TrimSpace(tag), ';'))
  }

  function Names(ds: seq<Directive>): set<string> {
    set k | 0 <= k < |ds| :: ds[k].name
  }

  /** Directive names are pairwise distinct within one node. */
  predicate DistinctNames(ds: seq<Directive>) {
    forall i, j :: 0 <= i < j < |ds| ==> ds[i].name != ds[j].name
  }

  /** Prepends already collected directives to the result of the rest of the loop. */
  function Prepend(ds: seq<Directive>, r: Result<seq<Directive>, Error>): Result<seq<Directive>, Error> {
    match r
    case Success(rest) => Success(ds + rest)
    case Failure(e) => Failure(e)
  }

  /**
   * What the loop of parseDirectives returns for the remaining segments,
   * when the names in `seen` are already taken.
   */
  function ParseSegments(segs: seq<string>, parse: Parser, seen: set<string>): Result<seq<Directive>, Error> {
    if |segs| == 0 then Success([])
    else
      match parse(segs[0])
      case Failure(e) => Failure(e)
      case Success(d) =>
        if d.name in seen then Failure(DuplicateDirectiveError(d.name))
        else Prepend([d], ParseSegments(segs[1..], parse, seen + {d.name}))
  }

  /** What parseDirectives returns for a tag value. */
  function Parsed(tag: string, parse: Parser): Result<seq<Directive>, Error> {
    ParseSegments(Segments(tag), parse, {})
  }

  /**
   * The loop of parseDirectives from piece `i` on, with the directives
   * collected so far and the names seen so far.
   */
  function ParseFrom(pieces: seq<string>, i: nat, ds: seq<Directive>, seen: set<string>, parse: Parser): Result<seq<Directive>, Error>
    requires i <= |pieces|
    decreases |pieces| - i
  {
    if i == |pieces| then Success(ds)
    else
      var seg := TrimSpace(pieces[i]);
      if seg == "" then ParseFrom(pieces, i + 1, ds, seen, parse)
      else
        match parse(seg)
        case Failure(e) => Failure(e)
        case Success(d) =>
          if d.name in seen then Failure(DuplicateDirectiveError(d.name))
          else ParseFrom(pieces, i + 1, ds + [d], seen + {d.name}, parse)
  }

  /** parseDirectives, with its loop and the `existed` map. */
  method ParseDirectives(tag: string, parse: Parser) returns (r: Result<seq<Directive>, Error>)
    ensures r == Parsed(tag, parse)
  {
    var trimmed := TrimSpace(tag);
    var directives: seq<Directive> := [];
    var existed: map<string, bool> := map[];
    var pieces := Split(trimmed, ';');
    ParseFromSegments(pieces, 0, [], {}, parse);
    assert pieces[0..] == pieces;
    PrependNothing(ParseSegments(NonEmpty(pieces), parse, {}));
    assert existed.Keys == {};
    for i := 0 to |pieces|
      invariant forall n :: n in existed ==> existed[n] == true
      invariant ParseFrom(pieces, 0, [], {}, parse) == ParseFrom(pieces, i, directives, existed.Keys, parse)
    {
      var directive := TrimSpace(pieces[i]);
      if directive == "" {
        continue;
      }
      var parsed := parse(directive);
      if parsed.Failure? {
        return Failure(parsed.error);
      }
      var d := parsed.value;
      if d.name in existed && existed[d.name] {
        return Failure(DuplicateDirectiveError(d.name));
      }
      ghost var seen := existed.Keys;
      existed := existed[d.name := true];
      assert existed.Keys == seen + {d.name};
      directives := directives + [d];
    }
    return Success(directives);
  }

  lemma PrependNothing(r: Result<seq<Directive>, Error>)
    ensures Prepend([], r) == r
  {
    if r.Success? {
      assert [] + r.value == r.value;
    }
  }

  /** The loop computes the specification over the non-empty segments. */
  lemma {:induction false} ParseFromSegments(pieces: seq<string>, i: nat, ds: seq<Directive>, seen: set<string>, parse: Parser)
    requires i <= |pieces|
    ensures ParseFrom(pieces, i, ds, seen, parse) == Prepend(ds, ParseSegments(NonEmpty(pieces[i..]), parse, seen))
    decreases |pieces| - i
  {
    if i == |pieces| {
      assert pieces[i..] == [];
      assert ds + [] == ds;
    } else {
      assert pieces[i..][1..] == pieces[i + 1..];
      var seg := TrimSpace(pieces[i]);
      var rest := NonEmpty(pieces[i + 1..]);
      if seg == "" {
        ParseFromSegments(pieces, i + 1, ds, seen, parse);
      } else {
        assert NonEmpty(pieces[i..]) == [seg] + rest;
        assert ([seg] + rest)[0] == seg && ([seg] + rest)[1..] == rest;
        match parse(seg)
        case Failure(e) =>
        case Success(d) =>
          if d.name !in seen {
            ParseFromSegments(pieces, i + 1, ds + [d], seen + {d.name}, parse);
            var r := ParseSegments(rest, parse, seen + {d.name});
            if r.Success? {
              assert ds + ([d] + r.value) == (ds + [d]) + r.value;
            }
          }
      }
    }
  }

  // ---- properties of the specification ----

  /** The names of a directive in front of others. */
  lemma NamesCons(d: Directive, rest: seq<Directive>)
    ensures Names([d] + rest) == {d.name} + Names(rest)
  {
    var ds := [d] + rest;
    forall n | n in Names(ds) ensures n in {d.name} + Names(rest) {
      var k :| 0 <= k < |ds| && ds[k].name == n;
      if k > 0 { assert rest[k - 1].name == n; }
    }
    forall n | n in Names(rest) ensures n in Names(ds) {
      var k :| 0 <= k < |rest| && rest[k].name == n;
      assert ds[k + 1].name == n;
    }
    assert ds[0].name in Names(ds);
  }

  /** A directive whose name is not among the others' keeps the names distinct. */
  lemma DistinctCons(d: Directive, rest: seq<Directive>)
    requires DistinctNames(rest) && d.name !in Names(rest)
    ensures DistinctNames([d] + rest)
  {
    var ds := [d] + rest;
    forall i, j | 0 <= i < j < |ds| ensures ds[i].name != ds[j].name {
      assert ds[j] == rest[j - 1];
      if i == 0 {
        assert ds[j].name in Names(rest);
      } else {
        assert ds[i] == rest[i - 1];
      }
    }
  }

  lemma {:induction false} ParseSegmentsSuccess(segs: seq<string>, parse: Parser, seen: set<string>)
    requires ParseSegments(segs, parse, seen).Success?
    ensures var ds := ParseSegments(segs, parse, seen).value;
      |ds| == |segs| &&
      (forall k :: 0 <= k < |segs| ==> parse(segs[k]) == Success(ds[k])) &&
      DistinctNames(ds) && Names(ds) !! seen
  {
    if |segs| > 0 {
      var d := parse(segs[0]).value;
      ParseSegmentsSuccess(segs[1..], parse, seen + {d.name});
      var rest := ParseSegments(segs[1..], parse, seen + {d.name}).value;
      var ds := [d] + rest;
      assert ParseSegments(segs, parse, seen).value == ds;
      assert forall k :: 1 <= k < |segs| ==> segs[k] == segs[1..][k - 1] && ds[k] == rest[k - 1];
      NamesCons(d, rest);
      DistinctCons(d, rest);
    }
  }

  lemma {:induction false} ParseSegmentsSucceeds(segs: seq<string>, parse: Parser, seen: set<string>, ds: seq<Directive>)
    requires |ds| == |segs|
    requires forall k :: 0 <= k < |segs| ==> parse(segs[k]) == Success(ds[k])
    requires DistinctNames(ds) && Names(ds) !! seen
    ensures ParseSegments(segs, parse, seen) == Success(ds)
  {
    if |segs| > 0 {
      assert ds[0].name in Names(ds);
      var rest := ds[1..];
      assert forall k :: 0 <= k < |rest| ==> rest[k] == ds[k + 1] && segs[1..][k] == segs[k + 1];
      assert Names(rest) !! (seen + {ds[0].name}) by {
        forall k | 0 <= k < |rest| ensures rest[k].name !in seen + {ds[0].name} {
          assert ds[k + 1].name in Names(ds);
        }
      }
      ParseSegmentsSucceeds(segs[1..], parse, seen + {ds[0].name}, rest);
      assert ds == [ds[0]] + rest;
    }
  }

  /** The segments parse and their names are pairwise distinct. */
  ghost predicate AllParseDistinct(segs: seq<string>, parse: Parser, n: nat)
    requires n <= |segs|
  {
    (forall k :: 0 <= k < n ==> parse(segs[k]).Success?) &&
    (forall i, j :: 0 <= i < j < n ==> parse(segs[i]).value.name != parse(segs[j]).value.name)
  }

  /** No name parsed from the first `n` segments is in `seen`. */
  ghost predicate NamesFresh(segs: seq<string>, parse: Parser, n: nat, seen: set<string>)
    requires n <= |segs|
  {
    forall j :: 0 <= j < n && parse(segs[j]).Success? ==> parse(segs[j]).value.name !in seen
  }

  lemma {:induction false} ParseSegmentsFirstFailure(segs: seq<string>, parse: Parser, seen: set<string>, k: nat)
    requires k < |segs|
    requires AllParseDistinct(segs, parse, k) && NamesFresh(segs, parse, k, seen)
    requires parse(segs[k]).Failure? ||
      parse(segs[k]).value.name in seen ||
      exists j :: 0 <= j < k && parse(segs[j]).value.name == parse(segs[k]).value.name
    ensures ParseSegments(segs, parse, seen) ==
      if parse(segs[k]).Failure? then Failure(parse(segs[k]).error)
      else Failure(DuplicateDirectiveError(parse(segs[k]).value.name))
  {
    if k > 0 {
      var d := parse(segs[0]).value;
      var tail := segs[1..];
      assert forall j :: 0 <= j < |tail| ==> tail[j] == segs[j + 1];
      assert AllParseDistinct(tail, parse, k - 1);
      assert NamesFresh(tail, parse, k - 1, seen + {d.name});
      if parse(segs[k]).Success? && parse(segs[k]).value.name !in seen {
        var j :| 0 <= j < k && parse(segs[j]).value.name == parse(segs[k]).value.name;
        if j == 0 {
          assert parse(tail[k - 1]).value.name in seen + {d.name};
        } else {
          assert parse(tail[j - 1]).value.name == parse(tail[k - 1]).value.name;
        }
      }
      ParseSegmentsFirstFailure(tail, parse, seen + {d.name}, k - 1);
    }
  }

  /** Every segment is non-empty, trimmed and free of ';'. */
  lemma {:induction false} NonEmptySegments(pieces: seq<string>)
    requires forall k :: 0 <= k < |pieces| ==> ';' !in pieces[k]
    ensures forall k :: 0 <= k < |NonEmpty(pieces)| ==>
      NonEmpty(pieces)[k] != "" && ';' !in NonEmpty(pieces)[k] && TrimSpace(NonEmpty(pieces)[k]) == NonEmpty(pieces)[k]
  {
    if |pieces| > 0 {
      assert forall k :: 0 <= k < |pieces[1..]| ==> pieces[1..][k] == pieces[k + 1];
      NonEmptySegments(pieces[1..]);
      TrimSpaceIdempotent(pieces[0]);
      TrimSpaceInfix(pieces[0], ';');
    }
  }

  /**
   * On success parseDirectives returns, in order, the directive parsed from
   * each non-empty trimmed `;`-segment of the tag, and their names are
   * pairwise distinct.
   */
  lemma ParsedInOrder(tag: string, parse: Parser)
    requires Parsed(tag, parse).Success?
    ensures var ds := Parsed(tag, parse).value;
      |ds| == |Segments(tag)| &&
      (forall k :: 0 <= k < |ds| ==> parse(Segments(tag)[k]) == Success(ds[k])) &&
      DistinctNames(ds)
  {
    ParseSegmentsSuccess(Segments(tag), parse, {});
  }

  lemma ParseSegmentsSucceedsIff(segs: seq<string>, parse: Parser)
    ensures ParseSegments(segs, parse, {}).Success? <==> AllParseDistinct(segs, parse, |segs|)
  {
    if ParseSegments(segs, parse, {}).Success? {
      ParseSegmentsSuccess(segs, parse, {});
    } else if AllParseDistinct(segs, parse, |segs|) {
      var ds := seq(|segs|, k requires 0 <= k < |segs| => parse(segs[k]).value);
      ParseSegmentsSucceeds(segs, parse, {}, ds);
    }
  }

  /** parseDirectives succeeds exactly when every segment parses and no name repeats. */
  lemma ParsedSucceedsIff(tag: string, parse: Parser)
    ensures Parsed(tag, parse).Success? <==> AllParseDistinct(Segments(tag), parse, |Segments(tag)|)
  {
    ParseSegmentsSucceedsIff(Segments(tag), parse);
  }

  /**
   * The first segment that fails decides the error: a ParseDirective error is
   * returned as it is, a repeated name as duplicateDirective(name).
   */
  lemma ParsedFirstFailure(tag: string, parse: Parser, k: nat)
    requires k < |Segments(tag)|
    requires AllParseDistinct(Segments(tag), parse, k)
    requires parse(Segments(tag)[k]).Failure? ||
      exists j :: 0 <= j < k && parse(Segments(tag)[j]).value.name == parse(Segments(tag)[k]).value.name
    ensures Parsed(tag, parse) ==
      if parse(Segments(tag)[k]).Failure? then Failure(parse(Segments(tag)[k]).error)
      else Failure(DuplicateDirectiveError(parse(Segments(tag)[k]).value.name))
  {
    ParseSegmentsFirstFailure(Segments(tag), parse, {}, k);
  }

  /** An empty or all-white-space tag carries no directives. */
  lemma BlankTagHasNoDirectives(tag: string, parse: Parser)
    requires AllSpace(tag)
    ensures Parsed(tag, parse) == Success([])
  {
    TrimSpaceEmpty(tag);
    assert TrimSpace("") == "";
    assert Segments(tag) == NonEmpty([""]);
  }
}
