/** The check both tests poll to see that the file sink connector has written
    everything the file source connector read: the sink's output file is read
    on every worker node, since the tasks may run on any of them, and the
    stripped lines of all those files, taken as a set, must be the set of
    input lines. */
module OutputValidation {
  import opened Text
  import opened Common

  /** `file_contents` / `_file_contents`: the lines `cat` printed, or no
      lines when the remote command failed. */
  function FileContents(captured: Option<seq<string>>): (r: seq<string>)
    ensures captured.None? ==> r == []
    ensures captured.Some? ==> r == captured.value
  {
    if captured.Some? then captured.value else []
  }

  /** `[line.strip() for line in lines]`. */
  function StripAll(lines: seq<string>): (r: seq<string>)
    ensures |r| == |lines|
    ensures forall i :: 0 <= i < |r| ==> r[i] == Strip(lines[i])
  {
    seq(|lines|, i requires 0 <= i < |lines| => Strip(lines[i]))
  }

  /** `itertools.chain(*groups)`: the groups one after the other. */
  function Chain(groups: seq<seq<string>>): (r: seq<string>)
    ensures |groups| == 1 ==> r == groups[0]
  {
    if groups == [] then [] else groups[0] + Chain(groups[1..])
  }

  /** A line is in the chain exactly when it is in one of the groups. */
  lemma {:induction false} ChainMembers(groups: seq<seq<string>>)
    ensures forall x :: x in Chain(groups) <==> exists i :: 0 <= i < |groups| && x in groups[i]
  {
    if groups != [] {
      ChainMembers(groups[1..]);
      assert forall i :: 1 <= i < |groups| ==> groups[i] == groups[1..][i - 1];
    }
  }

  /** The stripped lines of every node's output file, in node order:
      `itertools.chain(*[[line.strip() for line in lines] for lines in nodes])`. */
  function OutputLines(nodes: seq<seq<string>>): seq<string> {
    if nodes == [] then [] else StripAll(nodes[0]) + OutputLines(nodes[1..])
  }

  /** Some node wrote a line that strips to `x`. */
  ghost predicate Written(nodes: seq<seq<string>>, x: string) {
    exists i, j :: 0 <= i < |nodes| && 0 <= j < |nodes[i]| && Strip(nodes[i][j]) == x
  }

  /** The output lines are exactly the stripped lines some node wrote. */
  lemma {:induction false} OutputLinesMembers(nodes: seq<seq<string>>)
    ensures forall x :: x in OutputLines(nodes) <==> Written(nodes, x)
  {
    if nodes != [] {
      OutputLinesMembers(nodes[1..]);
      forall x
        ensures x in OutputLines(nodes) <==> Written(nodes, x)
      {
        var head := StripAll(nodes[0]);
        if x in head {
          var j :| 0 <= j < |head| && head[j] == x;
          assert Strip(nodes[0][j]) == x;
        } else if x in OutputLines(nodes[1..]) {
          var i, j :| 0 <= i < |nodes[1..]| && 0 <= j < |nodes[1..][i]| && Strip(nodes[1..][i][j]) == x;
          assert Strip(nodes[i + 1][j]) == x;
        }
        if Written(nodes, x) {
          var i, j :| 0 <= i < |nodes| && 0 <= j < |nodes[i]| && Strip(nodes[i][j]) == x;
          if i == 0 {
            assert head[j] == x;
          } else {
            assert Strip(nodes[1..][i - 1][j]) == x;
          }
        }
      }
    }
  }

  /** `set(a) == set(b)`: the same lines occur in both. */
  function SameSet(a: seq<string>, b: seq<string>): (r: bool)
    ensures r <==> (forall x :: x in a ==> x in b) && (forall x :: x in b ==> x in a)
  {
    var sa, sb := set x | x in a, set x | x in b;
    assert forall x :: x in sa <==> x in a;
    assert forall x :: x in sb <==> x in b;
    assert sa == sb <==> forall x :: x in sa <==> x in sb;
    sa == sb
  }

  /** `validate_output` / `_validate_file_output`, given the lines of the
      output file on each node: the set of input lines equals the set of
      stripped output lines. */
  function ValidateOutput(input: seq<string>, nodes: seq<seq<string>>): (r: bool)
    ensures r <==> (
      && (forall x :: x in input ==> x in OutputLines(nodes))
      && (forall x :: x in OutputLines(nodes) ==> x in input))
  {
    SameSet(input, OutputLines(nodes))
  }

  /** The check passes exactly when every input line, as it stands, is the
      stripped form of some line a node wrote, and every line any node wrote
      strips to an input line. Input lines are not stripped, so one with
      outer whitespace can never be matched. */
  lemma ValidateOutputExact(input: seq<string>, nodes: seq<seq<string>>)
    ensures ValidateOutput(input, nodes) <==>
      (forall x :: x in input ==> Written(nodes, x)) &&
      (forall i, j :: 0 <= i < |nodes| && 0 <= j < |nodes[i]| ==> Strip(nodes[i][j]) in input)
  {
    OutputLinesMembers(nodes);
    assert (forall x :: x in OutputLines(nodes) ==> x in input) <==>
      (forall i, j :: 0 <= i < |nodes| && 0 <= j < |nodes[i]| ==> Strip(nodes[i][j]) in input) by {
      if forall x :: x in OutputLines(nodes) ==> x in input {
        forall i, j | 0 <= i < |nodes| && 0 <= j < |nodes[i]|
          ensures Strip(nodes[i][j]) in input
        {
          assert Written(nodes, Strip(nodes[i][j]));
        }
      }
    }
  }

  /** Stripping line by line distributes over concatenation. */
  lemma StripAllAppend(a: seq<string>, b: seq<string>)
    ensures StripAll(a + b) == StripAll(a) + StripAll(b)
  {
    var l, r := StripAll(a + b), StripAll(a) + StripAll(b);
    assert forall i :: 0 <= i < |l| ==> l[i] == r[i] by {
      forall i | 0 <= i < |l| ensures l[i] == r[i] {
        if i < |a| {
          assert (a + b)[i] == a[i];
        } else {
          assert (a + b)[i] == b[i - |a|];
        }
      }
    }
    assert |l| == |r|;
  }

  /** The output lines are the stripped lines of all node files chained
      together. */
  lemma {:induction false} OutputLinesChain(nodes: seq<seq<string>>)
    ensures OutputLines(nodes) == StripAll(Chain(nodes))
  {
    if nodes != [] {
      OutputLinesChain(nodes[1..]);
      StripAllAppend(nodes[0], Chain(nodes[1..]));
    }
  }

  /** How the output lines are spread over the nodes does not matter: the
      check gives the same answer as if one node held all of them, in node
      order. */
  lemma ValidateIgnoresNodes(input: seq<string>, nodes: seq<seq<string>>)
    ensures ValidateOutput(input, nodes) == ValidateOutput(input, [Chain(nodes)])
  {
    OutputLinesChain(nodes);
    OutputLinesChain([Chain(nodes)]);
  }

  /** Only which lines occur counts, not their order or how often they occur:
      node files whose stripped lines form the same set get the same
      answer. */
  lemma ValidateSameLines(input: seq<string>, nodes: seq<seq<string>>, others: seq<seq<string>>)
    requires forall x :: Written(nodes, x) <==> Written(others, x)
    ensures ValidateOutput(input, nodes) == ValidateOutput(input, others)
  {
    OutputLinesMembers(nodes);
    OutputLinesMembers(others);
  }

  /** The same holds for the input: only the set of input lines counts. */
  lemma ValidateSameInput(input: seq<string>, others: seq<string>, nodes: seq<seq<string>>)
    requires forall x :: x in input <==> x in others
    ensures ValidateOutput(input, nodes) == ValidateOutput(others, nodes)
  {
  }

  /** The output lines of two groups of nodes are those of the first group
      followed by those of the second. */
  lemma {:induction false} OutputLinesAppend(nodes: seq<seq<string>>, others: seq<seq<string>>)
    ensures OutputLines(nodes + others) == OutputLines(nodes) + OutputLines(others)
  {
    if nodes == [] {
      assert nodes + others == others;
    } else {
      OutputLinesAppend(nodes[1..], others);
      assert (nodes + others)[1..] == nodes[1..] + others;
      var head, tail, rest := StripAll(nodes[0]), OutputLines(nodes[1..]), OutputLines(others);
      assert head + (tail + rest) == head + tail + rest;
    }
  }

  /** Writing every output line a second time does not change the answer:
      the check compares sets, so it cannot see a line the sink delivered
      more than once. */
  lemma ValidateIgnoresRepeats(input: seq<string>, nodes: seq<seq<string>>)
    ensures ValidateOutput(input, nodes + nodes) == ValidateOutput(input, nodes)
  {
    OutputLinesAppend(nodes, nodes);
  }

  /** A node whose output file could not be read contributes no lines: when
      no node's file could be read, any non-empty input fails the check. */
  lemma UnreadableNodeContributesNothing(input: seq<string>, nodes: seq<seq<string>>)
    requires input != []
    requires forall i :: 0 <= i < |nodes| ==> nodes[i] == FileContents(None)
    ensures !ValidateOutput(input, nodes)
  {
    OutputLinesMembers(nodes);
    assert input[0] in input;
  }
}
