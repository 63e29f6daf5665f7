/**
  Relative paths in the bundled url-parse (`cluster/wwwroot/sockjs.js`, `resolve`): a scan
  from the end that splices segments out, against the forward algorithm of RFC 3986.
 */
module UrlResolve {
  import opened Texts

  const SLASH: CodeUnit := 47
  const DOT: Text := [46]
  const DOTDOT: Text := [46, 46]

  // ---------- splitting ----------

  /** `text.split('/')`. */
  function Split(text: Text): (parts: seq<Text>)
    ensures parts != []
  {
    if text == [] then [[]]
    else
      var rest := Split(text[1..]);
      if text[0] == SLASH then [[]] + rest else [[text[0]] + rest[0]] + rest[1..]
  }

  ghost predicate SlashFree(parts: seq<Text>) {
    forall i :: 0 <= i < |parts| ==> SLASH !in parts[i]
  }

  lemma {:induction false} SplitSlashFree(text: Text)
    ensures SlashFree(Split(text))
    decreases |text|
  {
    if text != [] { SplitSlashFree(text[1..]); }
  }

  lemma {:induction false} JoinOfSplit(text: Text)
    ensures Join(Split(text), [SLASH]) == text
    decreases |text|
  {
    if text != [] {
      JoinOfSplit(text[1..]);
      var rest := Split(text[1..]);
      if text[0] == SLASH {
        assert ([[]] + rest)[1..] == rest;
        assert [] + [SLASH] + Join(rest, [SLASH]) == [text[0]] + text[1..];
      } else {
        JoinHead([text[0]], rest);
      }
      assert text == [text[0]] + text[1..];
    }
  }

  lemma JoinHead(head: Text, rest: seq<Text>)
    requires rest != []
    ensures Join([head + rest[0]] + rest[1..], [SLASH]) == head + Join(rest, [SLASH])
  {
    var all := [head + rest[0]] + rest[1..];
    if |rest| > 1 {
      assert all[1..] == rest[1..];
      assert head + rest[0] + [SLASH] + Join(rest[1..], [SLASH])
          == head + (rest[0] + [SLASH] + Join(rest[1..], [SLASH]));
    }
  }

  /** The text up to and with its last slash; empty when it has none. */
  function UpToLastSlash(text: Text): Text {
    if text == [] then []
    else if text[|text| - 1] == SLASH then text
    else UpToLastSlash(text[..|text| - 1])
  }

  // ---------- RFC 3986 ----------

  /** Section 5.2.3 of RFC 3986, for a base that has an authority. */
  function Merge(base: Text, relative: Text): Text {
    if base == [] then [SLASH] + relative else UpToLastSlash(base) + relative
  }

  /** The output without its last segment and the slash before it. */
  function RemoveLast(output: Text): Text {
    if output == [] then []
    else if output[|output| - 1] == SLASH then output[..|output| - 1]
    else RemoveLast(output[..|output| - 1])
  }

  /** The length of the first segment, with its leading slash if it has one. */
  function FirstSegment(input: Text): (n: nat)
    requires input != []
    ensures 1 <= n <= |input|
  {
    1 + ToSlash(input[1..])
  }

  /** How far it is to the next slash or the end. */
  function ToSlash(input: Text): (n: nat)
    ensures n <= |input|
  {
    if input == [] || input[0] == SLASH then 0 else 1 + ToSlash(input[1..])
  }

  function StartsWith(text: Text, prefix: Text): (r: bool)
    ensures r ==> |prefix| <= |text| && (prefix != [] ==> text[0] == prefix[0])
  {
    assert |prefix| <= |text| && prefix != [] ==> text[..|prefix|][0] == text[0];
    |prefix| <= |text| && text[..|prefix|] == prefix
  }

  /** The loop of section 5.2.4 of RFC 3986, steps 2A to 2E. */
  function RemoveDots(input: Text, output: Text): Text
    decreases |input|
  {
    if input == [] then output
    else if StartsWith(input, DOTDOT + [SLASH]) then RemoveDots(input[3..], output)
    else if StartsWith(input, DOT + [SLASH]) then RemoveDots(input[2..], output)
    else if StartsWith(input, [SLASH] + DOT + [SLASH]) then RemoveDots(input[2..], output)
    else if input == [SLASH] + DOT then RemoveDots([SLASH], output)
    else if StartsWith(input, [SLASH] + DOTDOT + [SLASH]) then RemoveDots(input[3..], RemoveLast(output))
    else if input == [SLASH] + DOTDOT then RemoveDots([SLASH], RemoveLast(output))
    else if input == DOT || input == DOTDOT then RemoveDots([], output)
    else RemoveDots(input[FirstSegment(input)..], output + input[..FirstSegment(input)])
  }

  // ---------- resolve ----------

  predicate IsDots(segment: Text) { segment == DOT || segment == DOTDOT }

  /** The segments `resolve` starts from. */
  function Segments(relative: Text, base: Text): (path: seq<Text>)
    ensures path != []
  {
    var parts := Split(if base == [] then [SLASH] else base);
    parts[..|parts| - 1] + Split(relative)
  }

  /** The segments the backward scan leaves of `path`, with `up` segments still to drop. */
  function Backward(path: seq<Text>, up: nat): seq<Text> {
    if path == [] then []
    else
      var init, last := path[..|path| - 1], path[|path| - 1];
      if last == DOT then Backward(init, up)
      else if last == DOTDOT then Backward(init, up + 1)
      else if up > 0 then Backward(init, up - 1)
      else Backward(init, 0) + [last]
  }

  /** Whether a drop is still due when the scan reaches the first of `path`. */
  function UpAtFirst(path: seq<Text>, up: nat): nat
    requires path != []
  {
    if |path| == 1 then up
    else
      var init, last := path[..|path| - 1], path[|path| - 1];
      if last == DOT then UpAtFirst(init, up)
      else if last == DOTDOT then UpAtFirst(init, up + 1)
      else UpAtFirst(init, if up > 0 then up - 1 else 0)
  }

  /** `resolve(relative, base)`. */
  function Resolved(relative: Text, base: Text): Text {
    var path := Segments(relative, base);
    var unshift := UpAtFirst(path, 0) > 0 && !IsDots(path[0]);
    var kept := (if unshift then [[]] else []) + Backward(path, 0);
    Join(kept + (if IsDots(path[|path| - 1]) then [[]] else []), [SLASH])
  }

  method Resolve(relative: Text, base: Text) returns (r: Text)
    ensures r == Resolved(relative, base)
  {
    hide Backward, UpAtFirst, Join;
    var path := Segments(relative, base);
    var last := path[|path| - 1];
    var unshift;
    path, unshift := ScanBack(path);
    assert [] + path == path;
    if unshift { path := [[]] + path; }
    assert path + [] == path;
    if last == DOT || last == DOTDOT { path := path + [[]]; }
    r := Join(path, [SLASH]);
  }

  /** `path.splice(i, 1)`. */
  function Splice(path: seq<Text>, i: nat): seq<Text>
    requires i < |path|
  {
    path[..i] + path[i + 1..]
  }

  /** The loop of `resolve`, which splices segments out of `path` from its end. */
  method ScanBack(start: seq<Text>) returns (path: seq<Text>, unshift: bool)
    requires start != []
    ensures path == Backward(start, 0)
    ensures unshift == (UpAtFirst(start, 0) > 0 && !IsDots(start[0]))
  {
    path := start;
    var i := |path|;
    unshift := false;
    var up := 0;
    ghost var kept: seq<Text> := [];
    assert start[..i] == start && start[..i] + kept == start;
    assert Backward(start, 0) + kept == Backward(start, 0);
    while i > 0
      invariant 0 <= i <= |start| && path == start[..i] + kept
      invariant Backward(start, 0) == Backward(start[..i], up) + kept
      invariant i > 0 ==> UpAtFirst(start, 0) == UpAtFirst(start[..i], up) && !unshift
      invariant i == 0 ==> unshift == (UpAtFirst(start, 0) > 0 && !IsDots(start[0]))
    {
      hide Backward, UpAtFirst, Splice;
      i := i - 1;
      ScanTurn(start, i, up, kept);
      SpliceAt(start, i, kept);
      if path[i] == DOT {
        path := Splice(path, i);
      } else if path[i] == DOTDOT {
        path := Splice(path, i);
        up := up + 1;
      } else if up > 0 {
        if i == 0 { unshift := true; }
        path := Splice(path, i);
        up := up - 1;
      } else {
        kept := [path[i]] + kept;
      }
    }
  }

  /** What one turn does to the segments left and to the drops due. */
  lemma ScanTurn(start: seq<Text>, i: nat, up: nat, kept: seq<Text>)
    requires i < |start|
    ensures var s := start[i];
      var next := if s == DOT then up else if s == DOTDOT then up + 1 else if up > 0 then up - 1 else 0;
      var keep := if !IsDots(s) && up == 0 then [s] + kept else kept;
      && Backward(start[..i + 1], up) + kept == Backward(start[..i], next) + keep
      && UpAtFirst(start[..i + 1], up) == if i == 0 then up else UpAtFirst(start[..i], next)
  {
    var path := start[..i + 1];
    assert path[..|path| - 1] == start[..i] && path[|path| - 1] == start[i];
    assert (Backward(start[..i], 0) + [start[i]]) + kept == Backward(start[..i], 0) + ([start[i]] + kept);
  }

  lemma SpliceAt(start: seq<Text>, i: nat, kept: seq<Text>)
    requires i < |start|
    ensures var path := start[..i + 1] + kept;
      && path[i] == start[i]
      && Splice(path, i) == start[..i] + kept
      && path == start[..i] + ([start[i]] + kept)
  {
  }

  // ---------- the scan against a stack ----------

  /** Reading segments forward: a dot is skipped, two dots take the last one back. */
  function Forward(path: seq<Text>): seq<Text> {
    if path == [] then []
    else Push(Forward(path[..|path| - 1]), path[|path| - 1])
  }

  function Push(stack: seq<Text>, segment: Text): seq<Text> {
    if segment == DOT then stack
    else if segment == DOTDOT then if stack == [] then [] else stack[..|stack| - 1]
    else stack + [segment]
  }

  /** Scanning backwards with `up` drops pending keeps what a stack keeps after `up` pops. */
  lemma {:induction false} BackwardIsForward(path: seq<Text>, up: nat)
    ensures var stack := Forward(path);
      Backward(path, up) == if up < |stack| then stack[..|stack| - up] else []
    decreases |path|
  {
    if path != [] {
      var init, last := path[..|path| - 1], path[|path| - 1];
      BackwardIsForward(init, up);
      BackwardIsForward(init, up + 1);
      if up > 0 { BackwardIsForward(init, up - 1); }
    }
  }

  /** The root segment of an absolute path stays in place, whatever is dropped. */
  lemma {:induction false} RootStays(rest: seq<Text>, up: nat)
    ensures var path := [[]] + rest;
      (if UpAtFirst(path, up) > 0 then [[]] else []) + Backward(path, up) == [[]] + Backward(rest, up)
    decreases |rest|
  {
    var path := [[]] + rest;
    if rest == [] {
      assert path[..0] == [];
    } else {
      var init, last := rest[..|rest| - 1], rest[|rest| - 1];
      assert path[..|path| - 1] == [[]] + init;
      if last == DOT {
        RootStays(init, up);
      } else if last == DOTDOT {
        RootStays(init, up + 1);
      } else if up > 0 {
        RootStays(init, up - 1);
      } else {
        RootStays(init, 0);
        var unshift: seq<Text> := if UpAtFirst([[]] + init, 0) > 0 then [[]] else [];
        assert unshift + (Backward([[]] + init, 0) + [last]) == (unshift + Backward([[]] + init, 0)) + [last];
        assert [[]] + (Backward(init, 0) + [last]) == ([[]] + Backward(init, 0)) + [last];
      }
    }
  }

  // ---------- the string algorithm against a stack ----------

  /** The text of a stack: every segment behind a slash. */
  function Written(stack: seq<Text>): Text {
    if stack == [] then [] else Written(stack[..|stack| - 1]) + ([SLASH] + stack[|stack| - 1])
  }

  lemma {:induction false} RemoveLastSegment(output: Text, segment: Text)
    requires SLASH !in segment
    ensures RemoveLast(output + ([SLASH] + segment)) == output
    decreases |segment|
  {
    var all := output + ([SLASH] + segment);
    if segment == [] {
      assert all[..|all| - 1] == output;
    } else {
      assert all[..|all| - 1] == output + ([SLASH] + segment[..|segment| - 1]);
      assert all[|all| - 1] in segment;
      RemoveLastSegment(output, segment[..|segment| - 1]);
    }
  }

  lemma PopWritten(stack: seq<Text>)
    requires SlashFree(stack)
    ensures RemoveLast(Written(stack)) == Written(Push(stack, DOTDOT))
  {
    if stack != [] { RemoveLastSegment(Written(stack[..|stack| - 1]), stack[|stack| - 1]); }
  }

  lemma {:induction false} ToSlashIs(segment: Text, rest: Text)
    requires SLASH !in segment && (rest == [] || rest[0] == SLASH)
    ensures ToSlash(segment + rest) == |segment|
    decreases |segment|
  {
    if segment == [] {
      assert segment + rest == rest;
    } else {
      assert (segment + rest)[1..] == segment[1..] + rest;
      assert (segment + rest)[0] in segment;
      ToSlashIs(segment[1..], rest);
    }
  }

  /** One turn of the algorithm on an absolute path with more to come. */
  lemma TurnInside(segment: Text, rest: Text, stack: seq<Text>)
    requires SLASH !in segment && SlashFree(stack)
    ensures RemoveDots([SLASH] + segment + ([SLASH] + rest), Written(stack))
         == RemoveDots([SLASH] + rest, Written(Push(stack, segment)))
    ensures SlashFree(Push(stack, segment))
  {
    hide RemoveLast, Written, FirstSegment;
    var input := [SLASH] + segment + ([SLASH] + rest);
    Prefixes(segment, [SLASH] + rest);
    if segment == DOT {
      assert input[2..] == [SLASH] + rest;
    } else if segment == DOTDOT {
      assert input[3..] == [SLASH] + rest;
      PopWritten(stack);
    } else {
      MoveSegment(segment, [SLASH] + rest, stack);
    }
  }

  /** The last turns of the algorithm on an absolute path. */
  lemma TurnLast(segment: Text, stack: seq<Text>)
    requires SLASH !in segment && SlashFree(stack)
    ensures RemoveDots([SLASH] + segment, Written(stack))
         == Written(Push(stack, segment) + if IsDots(segment) then [[]] else [])
  {
    hide RemoveLast, Written, FirstSegment;
    var input := [SLASH] + segment;
    assert input + [] == input;
    Prefixes(segment, []);
    if IsDots(segment) {
      PopWritten(stack);
      assert [SLASH] + [] == [SLASH] && [SLASH] + [] + [] == [SLASH];
      Prefixes([], []);
      MoveSegment([], [], Push(stack, segment));
    } else {
      MoveSegment(segment, [], stack);
      assert Push(stack, segment) + [] == Push(stack, segment);
    }
  }

  /** Step 2E moves the first segment to the output. */
  lemma MoveSegment(segment: Text, rest: Text, stack: seq<Text>)
    requires SLASH !in segment && !IsDots(segment) && (rest == [] || rest[0] == SLASH)
    ensures RemoveDots([SLASH] + segment + rest, Written(stack)) == RemoveDots(rest, Written(Push(stack, segment)))
  {
    hide RemoveLast;
    var input := [SLASH] + segment + rest;
    Prefixes(segment, rest);
    assert input[1..] == segment + rest;
    ToSlashIs(segment, rest);
    assert input[FirstSegment(input)..] == rest && input[..FirstSegment(input)] == [SLASH] + segment;
    assert (stack + [segment])[..|stack|] == stack;
  }

  /** Which of the tests of the algorithm an absolute path passes. */
  lemma Prefixes(segment: Text, rest: Text)
    requires SLASH !in segment && (rest == [] || rest[0] == SLASH)
    ensures var input := [SLASH] + segment + rest;
      && input != [] && input[0] == SLASH
      && (StartsWith(input, [SLASH] + DOT + [SLASH]) <==> segment == DOT && rest != [])
      && (input == [SLASH] + DOT <==> segment == DOT && rest == [])
      && (StartsWith(input, [SLASH] + DOTDOT + [SLASH]) <==> segment == DOTDOT && rest != [])
      && (input == [SLASH] + DOTDOT <==> segment == DOTDOT && rest == [])
      && !StartsWith(input, DOTDOT + [SLASH]) && !StartsWith(input, DOT + [SLASH]) && input != DOT && input != DOTDOT
  {
    var input := [SLASH] + segment + rest;
    HeadOf(segment, rest, DOT);
    HeadOf(segment, rest, DOTDOT);
    assert (DOT + [SLASH])[0] == 46 && (DOTDOT + [SLASH])[0] == 46;
  }

  /** A path starts with a slash-free word and a slash exactly when the word is its first segment. */
  lemma HeadOf(segment: Text, rest: Text, word: Text)
    requires SLASH !in segment && SLASH !in word && (rest == [] || rest[0] == SLASH)
    ensures StartsWith([SLASH] + segment + rest, [SLASH] + word + [SLASH]) <==> segment == word && rest != []
    ensures [SLASH] + segment + rest == [SLASH] + word <==> segment == word && rest == []
  {
    var input := [SLASH] + segment + rest;
    var prefix := [SLASH] + word + [SLASH];
    assert input[1..] == segment + rest;
    ToSlashIs(segment, rest);
    if StartsWith(input, prefix) {
      var tail := input[|prefix| - 1..];
      assert input[|prefix| - 1] == prefix[|prefix| - 1] == SLASH;
      assert input[1..] == word + tail by {
        assert input[1..|prefix| - 1] == input[..|prefix|][1..|prefix| - 1] == word;
      }
      ToSlashIs(word, tail);
      assert segment == input[1..][..|word|] == word;
    }
    if segment == word && rest != [] {
      assert input[..|prefix|] == prefix;
    }
    if input == [SLASH] + word {
      assert input[1..] == word + [];
      ToSlashIs(word, []);
      assert segment == input[1..][..|word|] == word;
    }
    if segment == word && rest == [] { assert input == [SLASH] + word; }
  }

  /** The stack after pushing all of `path`. */
  function PushAll(stack: seq<Text>, path: seq<Text>): seq<Text>
    decreases |path|
  {
    if path == [] then stack else PushAll(Push(stack, path[0]), path[1..])
  }

  lemma {:induction false} PushAllSnoc(stack: seq<Text>, path: seq<Text>, segment: Text)
    ensures PushAll(stack, path + [segment]) == Push(PushAll(stack, path), segment)
    decreases |path|
  {
    if path == [] {
      assert path + [segment] == [segment] && [segment][1..] == [];
    } else {
      assert (path + [segment])[1..] == path[1..] + [segment];
      PushAllSnoc(Push(stack, path[0]), path[1..], segment);
    }
  }

  lemma {:induction false} PushAllIsForward(path: seq<Text>)
    ensures PushAll([], path) == Forward(path)
    decreases |path|
  {
    if path != [] {
      PushAllIsForward(path[..|path| - 1]);
      PushAllSnoc([], path[..|path| - 1], path[|path| - 1]);
      assert path[..|path| - 1] + [path[|path| - 1]] == path;
    }
  }

  lemma PushAllHead(stack: seq<Text>, path: seq<Text>)
    requires path != []
    ensures |path| == 1 ==> PushAll(stack, path) == Push(stack, path[0]) && Join(path, [SLASH]) == path[0]
    ensures |path| > 1 ==> PushAll(stack, path) == PushAll(Push(stack, path[0]), path[1..])
    ensures |path| > 1 ==>
      [SLASH] + Join(path, [SLASH]) == [SLASH] + path[0] + ([SLASH] + Join(path[1..], [SLASH]))
  {
  }

  /** The algorithm on an absolute path is a stack of its segments. */
  lemma {:induction false} RemoveDotsIsStack(path: seq<Text>, stack: seq<Text>)
    requires path != [] && SlashFree(path) && SlashFree(stack)
    ensures RemoveDots([SLASH] + Join(path, [SLASH]), Written(stack))
         == Written(PushAll(stack, path) + if IsDots(path[|path| - 1]) then [[]] else [])
    decreases |path|
  {
    hide RemoveDots, Written, IsDots, Push, Join, PushAll;
    PushAllHead(stack, path);
    if |path| == 1 {
      TurnLast(path[0], stack);
    } else {
      TailSlashFree(path);
      TurnInside(path[0], Join(path[1..], [SLASH]), stack);
      RemoveDotsIsStack(path[1..], Push(stack, path[0]));
    }
  }

  lemma AbsoluteIsStack(path: seq<Text>)
    requires path != [] && SlashFree(path)
    ensures RemoveDots([SLASH] + Join(path, [SLASH]), [])
         == Written(Forward(path) + if IsDots(path[|path| - 1]) then [[]] else [])
  {
    hide RemoveDots, Forward;
    assert Written([]) == [];
    PushAllIsForward(path);
    RemoveDotsIsStack(path, []);
  }

  // ---------- resolve is RFC 3986 ----------

  lemma {:induction false} WrittenIsJoin(stack: seq<Text>)
    ensures Join([[]] + stack, [SLASH]) == Written(stack)
    decreases |stack|
  {
    if stack == [] {
      assert [[]] + stack == [[]];
    } else {
      var init, last := stack[..|stack| - 1], stack[|stack| - 1];
      WrittenIsJoin(init);
      assert [[]] + stack == ([[]] + init) + [last];
      JoinSnoc([[]] + init, last, [SLASH]);
    }
  }

  lemma {:induction false} UpToLastSlashOfJoin(init: seq<Text>, last: Text)
    requires init != [] && SLASH !in last
    ensures UpToLastSlash(Join(init + [last], [SLASH])) == Join(init, [SLASH]) + [SLASH]
    decreases |last|
  {
    JoinSnoc(init, last, [SLASH]);
    var text := Join(init, [SLASH]) + [SLASH] + last;
    if last == [] {
      assert text == Join(init, [SLASH]) + [SLASH];
    } else {
      var shorter := last[..|last| - 1];
      JoinSnoc(init, shorter, [SLASH]);
      assert text[..|text| - 1] == Join(init, [SLASH]) + [SLASH] + shorter;
      assert text[|text| - 1] in last;
      UpToLastSlashOfJoin(init, shorter);
    }
  }

  lemma {:induction false} JoinConcat(a: seq<Text>, b: seq<Text>)
    requires a != [] && b != []
    ensures Join(a + b, [SLASH]) == Join(a, [SLASH]) + [SLASH] + Join(b, [SLASH])
    decreases |b|
  {
    var init, last := b[..|b| - 1], b[|b| - 1];
    if init == [] {
      assert b == [last];
      JoinSnoc(a, last, [SLASH]);
    } else {
      assert a + b == (a + init) + [last] && b == init + [last];
      JoinSnoc(a + init, last, [SLASH]);
      JoinConcat(a, init);
      JoinSnoc(init, last, [SLASH]);
    }
  }

  /** A path that starts with a slash has an empty first segment and another one. */
  lemma AbsoluteParts(absolute: Text)
    requires absolute != [] && absolute[0] == SLASH
    ensures var parts := Split(absolute); |parts| >= 2 && parts[0] == []
  {
  }

  lemma MergedSegments(relative: Text, base: Text)
    requires base == [] || base[0] == SLASH
    ensures var path := Segments(relative, base);
      |path| >= 2 && path[0] == [] && SlashFree(path) && Merge(base, relative) == Join(path, [SLASH])
  {
    hide Split, Join, UpToLastSlash;
    var absolute := if base == [] then [SLASH] else base;
    var parts := Split(absolute);
    var init, last := parts[..|parts| - 1], parts[|parts| - 1];
    AbsoluteParts(absolute);
    SplitSlashFree(absolute);
    SplitSlashFree(relative);
    assert parts == init + [last];
    MergeIsJoin(relative, base, absolute, init, last);
  }

  lemma MergeIsJoin(relative: Text, base: Text, absolute: Text, init: seq<Text>, last: Text)
    requires absolute == (if base == [] then [SLASH] else base) && init != [] && SLASH !in last
    requires Split(absolute) == init + [last]
    ensures Merge(base, relative) == Join(init + Split(relative), [SLASH])
  {
    hide Split, Join;
    JoinOfSplit(absolute);
    JoinOfSplit(relative);
    UpToLastSlashOfJoin(init, last);
    JoinConcat(init, Split(relative));
    assert UpToLastSlash([SLASH]) == [SLASH];
  }

  /** The segments `resolve` starts from are those of the merged path. */
  lemma MergeIsSegments(relative: Text, base: Text)
    requires base == [] || base[0] == SLASH
    ensures var path := Segments(relative, base);
      && |path| >= 2 && path[0] == [] && SlashFree(path)
      && Merge(base, relative) == [SLASH] + Join(path[1..], [SLASH])
      && path == [[]] + path[1..]
  {
    hide Segments, Merge, SlashFree;
    MergedSegments(relative, base);
    var path := Segments(relative, base);
    assert Join(path, [SLASH]) == [] + [SLASH] + Join(path[1..], [SLASH]);
  }

  /** The pieces `resolve` joins: the root, the surviving segments, and `end`. */
  lemma KeptIsStack(rest: seq<Text>, end: seq<Text>)
    ensures var path := [[]] + rest;
      (if UpAtFirst(path, 0) > 0 && !IsDots(path[0]) then [[]] else []) + Backward(path, 0) + end
        == [[]] + (Forward(rest) + end)
  {
    hide Backward, UpAtFirst, Forward;
    RootStays(rest, 0);
    BackwardIsForward(rest, 0);
    assert Backward(rest, 0) == Forward(rest);
    assert ([[]] + Forward(rest)) + end == [[]] + (Forward(rest) + end);
  }

  lemma ResolvedIsStack(relative: Text, base: Text)
    requires base == [] || base[0] == SLASH
    ensures var rest := Segments(relative, base)[1..];
      && rest != []
      && Resolved(relative, base) == Written(Forward(rest) + if IsDots(rest[|rest| - 1]) then [[]] else [])
  {
    hide Merge, Segments, Backward, UpAtFirst, Forward, Join, SlashFree, Written;
    MergeIsSegments(relative, base);
    var path := Segments(relative, base);
    var rest := path[1..];
    assert path[|path| - 1] == rest[|rest| - 1];
    var end: seq<Text> := if IsDots(rest[|rest| - 1]) then [[]] else [];
    KeptIsStack(rest, end);
    WrittenIsJoin(Forward(rest) + end);
  }

  /**
    For every base path that is empty or starts with a slash and every relative path,
    `resolve` gives what merging and then removing dot segments gives (sections 5.2.3
    and 5.2.4 of RFC 3986).
   */
  lemma ResolveIsRfc3986(relative: Text, base: Text)
    requires base == [] || base[0] == SLASH
    ensures Resolved(relative, base) == RemoveDots(Merge(base, relative), [])
  {
    hide *;
    MergeIsSegments(relative, base);
    TailSlashFree(Segments(relative, base));
    ResolvedIsStack(relative, base);
    AbsoluteIsStack(Segments(relative, base)[1..]);
  }

  lemma TailSlashFree(path: seq<Text>)
    requires SlashFree(path) && path != []
    ensures SlashFree(path[1..])
  {
  }

  lemma {:induction false} ForwardHasNoDots(path: seq<Text>)
    ensures forall s <- Forward(path) :: !IsDots(s)
    decreases |path|
  {
    if path != [] { ForwardHasNoDots(path[..|path| - 1]); }
  }

  lemma {:induction false} ForwardOfClean(path: seq<Text>)
    requires forall s <- path :: !IsDots(s)
    ensures Forward(path) == path
    decreases |path|
  {
    if path != [] {
      assert path[|path| - 1] in path;
      ForwardOfClean(path[..|path| - 1]);
      assert path == path[..|path| - 1] + [path[|path| - 1]];
    }
  }

  /** A segment list without dots is left as it is: removing dot segments is idempotent. */
  lemma ForwardIdempotent(path: seq<Text>)
    ensures Forward(Forward(path)) == Forward(path)
  {
    ForwardHasNoDots(path);
    ForwardOfClean(Forward(path));
  }
}
