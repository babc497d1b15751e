/** Reassembling a streamed chat completion (readStream in api/ai/llm.go): the content, and tool
    calls whose fragments arrive interleaved. */
module StreamReassembly {
  import opened Ranges
  import opened Wrappers

  datatype Fragment = Fragment(index: int, id: string, name: string, arguments: string)

  datatype Choice = Choice(content: string, toolCalls: seq<Fragment>)

  /** A line of the stream: not a data line, the end marker, data that is not JSON, or a chunk. */
  datatype Line = NotData | EndMarker | Malformed | Chunk(choices: seq<Choice>)

  datatype ToolCall = ToolCall(id: string, name: string, arguments: string)

  datatype Response = Response(content: string, toolCalls: seq<ToolCall>)

  // ----- what the stream says

  /** The choices in front of the end marker, in order. */
  function Choices(lines: seq<Line>): seq<Choice> {
    if lines == [] || lines[0].EndMarker? then []
    else (if lines[0].Chunk? then lines[0].choices else []) + Choices(lines[1..])
  }

  function Fragments(choices: seq<Choice>): seq<Fragment> {
    if choices == [] then [] else Fragments(choices[..|choices| - 1]) + choices[|choices| - 1].toolCalls
  }

  function Concat(parts: seq<string>): string {
    if parts == [] then [] else Concat(parts[..|parts| - 1]) + parts[|parts| - 1]
  }

  /** The parts that are not empty. */
  function NonEmpty(parts: seq<string>): seq<string> {
    if parts == [] then []
    else NonEmpty(parts[..|parts| - 1]) + if parts[|parts| - 1] == [] then [] else [parts[|parts| - 1]]
  }

  function Contents(choices: seq<Choice>): seq<string> {
    seq(|choices|, i requires 0 <= i < |choices| => choices[i].content)
  }

  /** The fragments of one call, in order. */
  function Own(fragments: seq<Fragment>, index: int): seq<Fragment> {
    if fragments == [] then []
    else
      var last := fragments[|fragments| - 1];
      Own(fragments[..|fragments| - 1], index) + if last.index == index then [last] else []
  }

  /** The last identifier and the last name that are not empty, and all arguments in order. */
  function LastId(own: seq<Fragment>): string {
    if own == [] then []
    else if own[|own| - 1].id != [] then own[|own| - 1].id
    else LastId(own[..|own| - 1])
  }

  function LastName(own: seq<Fragment>): string {
    if own == [] then []
    else if own[|own| - 1].name != [] then own[|own| - 1].name
    else LastName(own[..|own| - 1])
  }

  function AllArguments(own: seq<Fragment>): string {
    if own == [] then [] else AllArguments(own[..|own| - 1]) + own[|own| - 1].arguments
  }

  /** The call that a run of fragments describes. */
  function Describes(own: seq<Fragment>): ToolCall {
    ToolCall(LastId(own), LastName(own), AllArguments(own))
  }

  ghost predicate AssembledAt(calls: map<int, ToolCall>, fragments: seq<Fragment>, j: int) {
    && (j in calls <==> Own(fragments, j) != [])
    && (j in calls ==> calls[j] == Describes(Own(fragments, j)))
  }

  /** calls holds one entry for each index met, each as its own fragments describe it. */
  ghost predicate Assembled(calls: map<int, ToolCall>, fragments: seq<Fragment>) {
    forall j :: AssembledAt(calls, fragments, j)
  }

  /** What one fragment makes of the call so far. */
  function Merged(existing: ToolCall, f: Fragment): ToolCall {
    ToolCall(if f.id != [] then f.id else existing.id,
             if f.name != [] then f.name else existing.name,
             existing.arguments + f.arguments)
  }

  lemma DescribesOneMore(own: seq<Fragment>, f: Fragment)
    ensures Describes(own + [f]) == Merged(Describes(own), f)
  {
    assert (own + [f])[..|own|] == own;
  }

  lemma OwnOneMore(fragments: seq<Fragment>, f: Fragment, j: int)
    ensures Own(fragments + [f], j) == Own(fragments, j) + if f.index == j then [f] else []
  {
    assert (fragments + [f])[..|fragments|] == fragments;
  }

  /** The call a fragment is added to: the one at its index, or a new one. */
  function Existing(calls: map<int, ToolCall>, index: int): ToolCall {
    if index in calls then calls[index] else ToolCall([], [], [])
  }

  lemma OneMoreFragmentAt(calls: map<int, ToolCall>, fragments: seq<Fragment>, f: Fragment, j: int)
    requires AssembledAt(calls, fragments, j)
    ensures AssembledAt(calls[f.index := Merged(Existing(calls, f.index), f)], fragments + [f], j)
  {
    var own := Own(fragments, j);
    OwnOneMore(fragments, f, j);
    if f.index == j {
      DescribesOneMore(own, f);
      assert own == [] ==> Describes(own) == ToolCall([], [], []);
    } else {
      assert own + [] == own;
    }
  }

  lemma OneMoreFragment(calls: map<int, ToolCall>, fragments: seq<Fragment>, f: Fragment)
    requires Assembled(calls, fragments)
    ensures Assembled(calls[f.index := Merged(Existing(calls, f.index), f)], fragments + [f])
  {
    var calls' := calls[f.index := Merged(Existing(calls, f.index), f)];
    forall j ensures AssembledAt(calls', fragments + [f], j) {
      assert AssembledAt(calls, fragments, j);
      OneMoreFragmentAt(calls, fragments, f, j);
    }
  }

  // ----- the code

  class Accumulator {
    var content: string
    /** The deltas passed to the callback. */
    var deltas: seq<string>
    var calls: map<int, ToolCall>

    constructor ()
      ensures content == [] && deltas == [] && calls == map[]
    {
      content, deltas, calls := [], [], map[];
    }

    /** What has been accumulated from these choices. */
    ghost predicate Holds(seen: seq<Choice>)
      reads this
    {
      && content == Concat(Contents(seen)) == Concat(deltas) && deltas == NonEmpty(Contents(seen))
      && Assembled(calls, Fragments(seen))
    }

    method AddToolCall(tc: Fragment, ghost earlier: seq<Fragment>)
      requires Assembled(calls, earlier)
      modifies this`calls
      ensures Assembled(calls, earlier + [tc])
    {
      OneMoreFragment(calls, earlier, tc);
      var existing := if tc.index in calls then calls[tc.index] else ToolCall(tc.id, tc.name, []);
      if tc.id != [] {
        existing := existing.(id := tc.id);
      }
      if tc.name != [] {
        existing := existing.(name := tc.name);
      }
      existing := existing.(arguments := existing.arguments + tc.arguments);
      assert existing == Merged(Existing(calls, tc.index), tc);
      calls := calls[tc.index := existing];
    }

    /** The inner loop, over the fragments of one choice. */
    method AddToolCalls(toolCalls: seq<Fragment>, ghost earlier: seq<Fragment>)
      requires Assembled(calls, earlier)
      modifies this`calls
      ensures Assembled(calls, earlier + toolCalls)
    {
      assert earlier + toolCalls[..0] == earlier;
      for i := 0 to |toolCalls|
        invariant Assembled(calls, earlier + toolCalls[..i])
      {
        assert earlier + toolCalls[..i + 1] == earlier + toolCalls[..i] + [toolCalls[i]];
        AddToolCall(toolCalls[i], earlier + toolCalls[..i]);
      }
      assert toolCalls[..|toolCalls|] == toolCalls;
    }

    /** One choice: its content delta, then its fragments. */
    method AddChoice(choice: Choice, ghost seen: seq<Choice>)
      requires Holds(seen)
      modifies this
      ensures Holds(seen + [choice])
    {
      OneMoreChoice(seen, choice);
      if choice.content != [] {
        content := content + choice.content;
        assert (deltas + [choice.content])[..|deltas|] == deltas;
        deltas := deltas + [choice.content];
      }
      AddToolCalls(choice.toolCalls, Fragments(seen));
    }

    /** The loop over the choices of one chunk. */
    method AddChunk(choices: seq<Choice>, ghost earlier: seq<Choice>)
      requires Holds(earlier)
      modifies this
      ensures Holds(earlier + choices)
    {
      ghost var seen := earlier;
      assert earlier + choices[..0] == earlier;
      for i := 0 to |choices|
        invariant Holds(seen) && seen == earlier + choices[..i]
      {
        AddChoice(choices[i], seen);
        assert earlier + choices[..i + 1] == seen + [choices[i]];
        seen := seen + [choices[i]];
      }
      assert earlier + choices[..|choices|] == earlier + choices;
    }

    /** The loop over the lines, up to the end marker. */
    method ReadLines(lines: seq<Line>)
      requires Holds([])
      modifies this
      ensures Holds(Choices(lines))
    {
      ghost var seen: seq<Choice> := [];
      var i := 0;
      assert lines[i..] == lines && [] + Choices(lines) == Choices(lines);
      while i < |lines|
        invariant 0 <= i <= |lines|
        invariant seen + Choices(lines[i..]) == Choices(lines)
        invariant Holds(seen)
      {
        var line := lines[i];
        OneMoreLine(lines, i, seen);
        if line.EndMarker? {
          return;
        }
        if line.Chunk? {
          AddChunk(line.choices, seen);
          seen := seen + line.choices;
        }
        i := i + 1;
      }
      assert seen + [] == seen == Choices(lines);
    }
  }

  lemma OneMoreLine(lines: seq<Line>, i: nat, seen: seq<Choice>)
    requires i < |lines|
    ensures seen + Choices(lines[i..])
            == if lines[i].EndMarker? then seen
               else (if lines[i].Chunk? then seen + lines[i].choices else seen) + Choices(lines[i + 1..])
  {
    assert lines[i..][1..] == lines[i + 1..];
    if lines[i].Chunk? {
      assert seen + (lines[i].choices + Choices(lines[i + 1..])) == (seen + lines[i].choices) + Choices(lines[i + 1..]);
    }
  }

  lemma OneMoreChoice(seen: seq<Choice>, choice: Choice)
    ensures Fragments(seen + [choice]) == Fragments(seen) + choice.toolCalls
    ensures Concat(Contents(seen + [choice])) == Concat(Contents(seen)) + choice.content
    ensures NonEmpty(Contents(seen + [choice])) == NonEmpty(Contents(seen)) + if choice.content == [] then [] else [choice.content]
  {
    var more := seen + [choice];
    assert more[..|seen|] == seen;
    assert Contents(more)[..|seen|] == Contents(seen);
  }

  /** readStream: the response, unless reading the body failed, and what the callback was passed. */
  method ReadStream(lines: seq<Line>, readFails: bool) returns (response: Option<Response>, deltas: seq<string>)
    ensures deltas == NonEmpty(Contents(Choices(lines))) && Concat(deltas) == Concat(Contents(Choices(lines)))
    ensures response.Some? <==> !readFails
    ensures response.Some? ==> response.value.content == Concat(deltas)
    ensures response.Some? ==> exists calls :: Assembled(calls, Fragments(Choices(lines))) && response.value.toolCalls == Listed(calls)
  {
    var acc := new Accumulator();
    acc.ReadLines(lines);
    deltas := acc.deltas;
    if readFails {
      return None, deltas;
    }
    var toolCalls := List(acc.calls);
    response := Some(Response(acc.content, toolCalls));
  }

  /** The entries the final loop finds: those at indices below the number of calls. */
  function Listed(calls: map<int, ToolCall>): seq<ToolCall> {
    ListedTo(calls, |calls|)
  }

  function ListedTo(calls: map<int, ToolCall>, n: nat): seq<ToolCall> {
    if n == 0 then [] else ListedTo(calls, n - 1) + if n - 1 in calls then [calls[n - 1]] else []
  }

  method List(calls: map<int, ToolCall>) returns (toolCalls: seq<ToolCall>)
    ensures toolCalls == Listed(calls)
  {
    toolCalls := [];
    for i := 0 to |calls|
      invariant toolCalls == ListedTo(calls, i)
    {
      if i in calls {
        toolCalls := toolCalls + [calls[i]];
      }
    }
  }

  // ----- main results

  /** The indices are 0 to k - 1. */
  ghost predicate Contiguous(calls: map<int, ToolCall>) {
    forall j :: j in calls <==> 0 <= j < |calls|
  }

  /** A stream is read up to its first end marker. */
  lemma {:induction false} ChoicesStopAtTheMarker(before: seq<Line>, after: seq<Line>)
    requires forall i :: 0 <= i < |before| ==> !before[i].EndMarker?
    ensures Choices(before + [EndMarker] + after) == Choices(before)
  {
    var lines := before + [EndMarker] + after;
    if before == [] {
      assert lines[0] == EndMarker;
    } else {
      assert lines[1..] == before[1..] + [EndMarker] + after;
      ChoicesStopAtTheMarker(before[1..], after);
    }
  }

  /** In front of it, the choices of all chunks follow each other, and other lines say nothing. */
  lemma {:induction false} ChoicesAppend(a: seq<Line>, b: seq<Line>)
    requires forall i :: 0 <= i < |a| ==> !a[i].EndMarker?
    ensures Choices(a + b) == Choices(a) + Choices(b)
  {
    if a == [] {
      assert a + b == b;
    } else {
      assert (a + b)[1..] == a[1..] + b;
      ChoicesAppend(a[1..], b);
    }
  }

  lemma ChoicesOfLine(line: Line)
    ensures Choices([line]) == if line.Chunk? then line.choices else []
  {
    assert [line][1..] == [];
    if line.Chunk? {
      assert line.choices + [] == line.choices;
    }
  }

  /** Contents, fragments and arguments follow each other in the order they arrive in. */
  lemma {:induction false} ConcatAppend(a: seq<string>, b: seq<string>)
    ensures Concat(a + b) == Concat(a) + Concat(b)
  {
    if b == [] {
      assert a + b == a;
    } else {
      assert (a + b)[..|a + b| - 1] == a + b[..|b| - 1];
      ConcatAppend(a, b[..|b| - 1]);
    }
  }

  /** The callback is passed each delta that is not empty, in order. */
  lemma {:induction false} NonEmptyAppend(a: seq<string>, b: seq<string>)
    ensures NonEmpty(a + b) == NonEmpty(a) + NonEmpty(b) && [] !in NonEmpty(b)
  {
    if b == [] {
      assert a + b == a;
    } else {
      assert (a + b)[..|a + b| - 1] == a + b[..|b| - 1];
      NonEmptyAppend(a, b[..|b| - 1]);
    }
  }

  lemma NonEmptyOne(x: string)
    ensures NonEmpty([x]) == if x == [] then [] else [x]
  {
    assert [x][..0] == [];
  }

  lemma ConcatOne(x: string)
    ensures Concat([x]) == x
  {
    assert [x][..0] == [];
    assert [] + x == x;
  }

  lemma {:induction false} FragmentsAppend(a: seq<Choice>, b: seq<Choice>)
    ensures Fragments(a + b) == Fragments(a) + Fragments(b)
  {
    if b == [] {
      assert a + b == a;
    } else {
      assert (a + b)[..|a + b| - 1] == a + b[..|b| - 1];
      FragmentsAppend(a, b[..|b| - 1]);
    }
  }

  lemma FragmentsOfChoice(choice: Choice)
    ensures Fragments([choice]) == choice.toolCalls
  {
    assert [choice][..0] == [];
    assert [] + choice.toolCalls == choice.toolCalls;
  }

  lemma {:induction false} OwnAppend(a: seq<Fragment>, b: seq<Fragment>, j: int)
    ensures Own(a + b, j) == Own(a, j) + Own(b, j)
  {
    if b == [] {
      assert a + b == a;
    } else {
      assert (a + b)[..|a + b| - 1] == a + b[..|b| - 1];
      OwnAppend(a, b[..|b| - 1], j);
    }
  }

  /** What two runs of fragments describe together: the arguments of the first in front of those of the
      second, and the second's identifier and name where it has one. */
  lemma {:induction false} DescribesAppend(a: seq<Fragment>, b: seq<Fragment>)
    ensures var (x, y, both) := (Describes(a), Describes(b), Describes(a + b));
            && both.arguments == x.arguments + y.arguments
            && both.id == (if y.id != [] then y.id else x.id)
            && both.name == (if y.name != [] then y.name else x.name)
  {
    if b == [] {
      assert a + b == a;
    } else {
      assert (a + b)[..|a + b| - 1] == a + b[..|b| - 1];
      DescribesAppend(a, b[..|b| - 1]);
    }
  }

  lemma DescribesOne(f: Fragment)
    ensures Describes([f]) == ToolCall(f.id, f.name, f.arguments)
  {
    var none: seq<Fragment> := [];
    assert [f][..0] == none;
    assert AllArguments(none) + f.arguments == f.arguments;
    assert LastId([f]) == (if f.id != [] then f.id else LastId(none)) == f.id;
    assert LastName([f]) == (if f.name != [] then f.name else LastName(none)) == f.name;
    assert AllArguments([f]) == AllArguments(none) + f.arguments;
  }

  /** Every call is listed iff the indices are contiguous, and then call i is at position i. */
  lemma ListedIsComplete(calls: map<int, ToolCall>)
    ensures |Listed(calls)| == |calls| <==> Contiguous(calls)
    ensures Contiguous(calls) ==> forall i :: 0 <= i < |calls| ==> Listed(calls)[i] == calls[i]
  {
    ListedCounts(calls, |calls|);
    if forall j :: 0 <= j < |calls| ==> j in calls {
      RangeSize(0, |calls|);
      SubsetSize(Range(0, |calls|), calls.Keys);
      ListedAll(calls, |calls|);
    }
  }

  /** What is listed are the calls at indices below their number, in the order of their indices. */
  lemma {:induction false} ListedInOrder(calls: map<int, ToolCall>, n: nat) returns (indices: seq<nat>)
    ensures |indices| == |ListedTo(calls, n)|
    ensures forall i :: 0 <= i < |indices| ==> indices[i] < n && indices[i] in calls && ListedTo(calls, n)[i] == calls[indices[i]]
    ensures forall i, j :: 0 <= i < j < |indices| ==> indices[i] < indices[j]
    ensures forall k: nat :: k < n && k in calls ==> k in indices
  {
    if n == 0 {
      indices := [];
    } else {
      indices := ListedInOrder(calls, n - 1);
      if n - 1 in calls {
        var shorter := indices;
        indices := indices + [n - 1];
        assert indices[|shorter|] == n - 1;
        assert forall k: nat :: k in shorter ==> k in indices;
      }
    }
  }

  /** A single call at index 1 is not listed. */
  lemma LateIndexIsNotListed(f: Fragment)
    requires f.index == 1
    ensures Assembled(map[1 := Describes([f])], [f]) && Listed(map[1 := Describes([f])]) == []
  {
    var calls := map[1 := Describes([f])];
    forall j ensures AssembledAt(calls, [f], j) {
      assert [f][..0] == [];
      assert Own([f], j) == if j == 1 then [f] else [];
    }
    assert calls.Keys == {1} && |calls| == 1;
    assert ListedTo(calls, 1) == ListedTo(calls, 0) + [];
  }

  /** When the indices met are 0 to k - 1, the response holds k calls, and each is made of its own
      fragments. */
  lemma ResponseHoldsEveryCall(calls: map<int, ToolCall>, fragments: seq<Fragment>, k: nat)
    requires Assembled(calls, fragments)
    requires forall j :: Own(fragments, j) != [] <==> 0 <= j < k
    ensures |Listed(calls)| == k
    ensures forall i :: 0 <= i < k ==> Listed(calls)[i] == Describes(Own(fragments, i))
  {
    forall j ensures j in calls <==> 0 <= j < k ensures j in calls ==> calls[j] == Describes(Own(fragments, j)) {
      assert AssembledAt(calls, fragments, j);
    }
    RangeSize(0, k);
    assert calls.Keys == Range(0, k);
    ListedIsComplete(calls);
  }

  lemma {:induction false} ListedCounts(calls: map<int, ToolCall>, n: nat)
    ensures |ListedTo(calls, n)| <= n
    ensures |ListedTo(calls, n)| == n <==> forall j :: 0 <= j < n ==> j in calls
  {
    if n > 0 {
      ListedCounts(calls, n - 1);
    }
  }

  lemma {:induction false} ListedAll(calls: map<int, ToolCall>, n: nat)
    requires forall j :: 0 <= j < n ==> j in calls
    ensures ListedTo(calls, n) == seq(n, i requires 0 <= i < n => calls[i])
  {
    if n > 0 {
      ListedAll(calls, n - 1);
    }
  }

  /** How the fragments of different calls are interleaved does not matter. */
  lemma InterleavingDoesNotMatter(calls: map<int, ToolCall>, calls': map<int, ToolCall>,
                                  fragments: seq<Fragment>, fragments': seq<Fragment>)
    requires Assembled(calls, fragments) && Assembled(calls', fragments')
    requires forall j :: Own(fragments, j) == Own(fragments', j)
    ensures calls == calls'
  {
    forall j ensures j in calls <==> j in calls' ensures j in calls ==> calls[j] == calls'[j] {
      assert AssembledAt(calls, fragments, j) && AssembledAt(calls', fragments', j);
    }
  }

  /** Exchanging two neighbours that belong to different calls leaves every call's own fragments
      alone. */
  lemma {:induction false} ExchangeKeepsOwn(before: seq<Fragment>, a: Fragment, b: Fragment, after: seq<Fragment>, j: int)
    requires a.index != b.index
    ensures Own(before + [a, b] + after, j) == Own(before + [b, a] + after, j)
  {
    var s, t := before + [a, b] + after, before + [b, a] + after;
    if after == [] {
      assert s[..|s| - 1] == before + [a] && t[..|t| - 1] == before + [b];
      assert (before + [a])[..|before|] == before && (before + [b])[..|before|] == before;
    } else {
      var shorter := after[..|after| - 1];
      assert s[..|s| - 1] == before + [a, b] + shorter && t[..|t| - 1] == before + [b, a] + shorter;
      ExchangeKeepsOwn(before, a, b, shorter, j);
    }
  }
}
