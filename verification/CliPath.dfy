/** Path resolution of the command line: resolve_path of kernel/Cli.cpp. */
module CliPath {

  /** How far the first segment goes: up to the first slash or the end. */
  function SegmentLength(b: string): (n: nat)
    ensures n <= |b| && (n < |b| ==> b[n] == '/')
    ensures forall j | 0 <= j < n :: b[j] != '/'
  {
    if b == "" || b[0] == '/' then 0 else SegmentLength(b[1..]) + 1
  }

  /** A path without its last segment and the slash in front of that. */
  function Parent(a: string): string {
    if a == "" then ""
    else if a[|a| - 1] == '/' then a[..|a| - 1]
    else Parent(a[..|a| - 1])
  }

  function Child(a: string, segment: string): string {
    if a == "" then segment else a + "/" + segment
  }

  /** Where one segment leads from a: an empty one to the root. */
  function Enter(a: string, segment: string): string {
    if segment == "" then ""
    else if segment == ".." then Parent(a)
    else if segment == "." then a
    else Child(a, segment)
  }

  /** The path that b means when a is the current one. */
  function Resolve(a: string, b: string): string
    decreases |b|
  {
    if b == "" then a
    else
      var n := SegmentLength(b);
      var next := Enter(a, b[..n]);
      if n == |b| then next else Resolve(next, b[n + 1..])
  }

  /** The scan for "..": back to the last slash, and over it. */
  method ScanParent(pathA: string) returns (temp: string)
    ensures temp == Parent(pathA)
  {
    var length := |pathA|;
    assert pathA[..length] == pathA;
    while length > 0 && pathA[length - 1] != '/'
      invariant 0 <= length <= |pathA| && Parent(pathA[..length]) == Parent(pathA)
    {
      assert pathA[..length][..length - 1] == pathA[..length - 1];
      length := length - 1;
    }
    if length > 0 {
      assert pathA[..length][..length - 1] == pathA[..length - 1];
      length := length - 1;
    }
    temp := pathA[..length];
  }

  method ScanSegment(pathB: string) returns (length: nat)
    ensures length == SegmentLength(pathB)
  {
    length := 0;
    while length < |pathB| && pathB[length] != '/'
      invariant length <= |pathB| && forall j | 0 <= j < length :: pathB[j] != '/'
    {
      length := length + 1;
    }
  }

  method ResolvePath(pathA: string, pathB: string) returns (path: string)
    ensures path == Resolve(pathA, pathB)
    decreases |pathB|
  {
    if pathB == "" {
      return pathA;
    }
    if pathB[0] == '/' {
      SlashStep(pathA, pathB);
      path := ResolvePath("", pathB[1..]);
    } else if |pathB| >= 2 && pathB[0] == '.' && pathB[1] == '.' && (|pathB| == 2 || pathB[2] == '/') {
      UpStep(pathA, pathB);
      var temp := ScanParent(pathA);
      if |pathB| == 2 {
        return temp;
      }
      path := ResolvePath(temp, pathB[3..]);
    } else if pathB[0] == '.' && (|pathB| == 1 || pathB[1] == '/') {
      StayStep(pathA, pathB);
      path := ResolvePath(pathA, pathB[(if |pathB| == 1 then 1 else 2)..]);
    } else {
      var length := ScanSegment(pathB);
      var temp := Child(pathA, pathB[..length]);
      DownStep(pathA, pathB, length);
      if length < |pathB| {
        path := ResolvePath(temp, pathB[length + 1..]);
      } else {
        path := temp;
      }
    }
  }

  /** Resolution enters the first segment and goes on with the rest. */
  lemma FirstSegment(a: string, b: string, segment: string)
    requires b != "" && segment <= b && '/' !in segment && (|segment| < |b| ==> b[|segment|] == '/')
    ensures Resolve(a, b) ==
      if |segment| == |b| then Enter(a, segment) else Resolve(Enter(a, segment), b[|segment| + 1..])
  {
    SegmentLengthIs(b, |segment|);
    assert b[..|segment|] == segment;
  }

  lemma SlashStep(a: string, b: string)
    requires b != "" && b[0] == '/'
    ensures Resolve(a, b) == Resolve("", b[1..])
  {
    FirstSegment(a, b, "");
  }

  lemma UpStep(a: string, b: string)
    requires ".." <= b && (|b| == 2 || b[2] == '/')
    ensures Resolve(a, b) == if |b| == 2 then Parent(a) else Resolve(Parent(a), b[3..])
  {
    FirstSegment(a, b, "..");
  }

  lemma StayStep(a: string, b: string)
    requires "." <= b && (|b| == 1 || b[1] == '/')
    ensures Resolve(a, b) == Resolve(a, b[(if |b| == 1 then 1 else 2)..])
  {
    FirstSegment(a, b, ".");
  }

  /** The scan that is tried last finds a segment that is neither empty nor dots. */
  lemma DownStep(a: string, b: string, n: nat)
    requires b != "" && b[0] != '/' && n == SegmentLength(b)
    requires !(|b| >= 2 && b[0] == '.' && b[1] == '.' && (|b| == 2 || b[2] == '/'))
    requires !(b[0] == '.' && (|b| == 1 || b[1] == '/'))
    ensures Resolve(a, b) == if n == |b| then Child(a, b[..n]) else Resolve(Child(a, b[..n]), b[n + 1..])
  {
    assert b[..n] != "" && b[..n] != ".." && b[..n] != ".";
    FirstSegment(a, b, b[..n]);
  }

  // --------------------------------------------------- segments on a stack

  function Split(b: string): (segments: seq<string>)
    ensures segments != []
    decreases |b|
  {
    var n := SegmentLength(b);
    if n == |b| then [b] else [b[..n]] + Split(b[n + 1..])
  }

  function Join(segments: seq<string>): string {
    if segments == [] then "" else Child(Join(segments[..|segments| - 1]), segments[|segments| - 1])
  }

  /** What one segment does to the stack; `last` says whether no segment follows it. */
  function Step(stack: seq<string>, segment: string, last: bool): seq<string> {
    if segment == "" then if last then stack else []
    else if segment == ".." then if stack == [] then [] else stack[..|stack| - 1]
    else if segment == "." then stack
    else stack + [segment]
  }

  function Fold(stack: seq<string>, segments: seq<string>): seq<string>
    decreases |segments|
  {
    if segments == [] then stack else Fold(Step(stack, segments[0], |segments| == 1), segments[1..])
  }

  predicate NoSlashes(segments: seq<string>) {
    forall i | 0 <= i < |segments| :: '/' !in segments[i]
  }

  /** The segments of a path that is empty or starts with something else than a slash. */
  predicate IsStack(stack: seq<string>) {
    NoSlashes(stack) && (stack != [] ==> stack[0] != "")
  }

  predicate IsNormal(stack: seq<string>) {
    IsStack(stack) && forall i | 0 <= i < |stack| :: stack[i] != "" && stack[i] != "." && stack[i] != ".."
  }

  function StackOf(a: string): seq<string> {
    if a == "" then [] else Split(a)
  }

  lemma {:induction false} ParentOfChild(a: string, segment: string)
    requires '/' !in segment
    ensures Parent(a + "/" + segment) == a
  {
    if segment == "" {
      assert (a + "/" + "")[..|a|] == a;
    } else {
      var path, front := a + "/" + segment, segment[..|segment| - 1];
      assert path[..|path| - 1] == a + "/" + front;
      ParentOfChild(a, front);
    }
  }

  lemma {:induction false} ParentOfSegment(segment: string)
    requires '/' !in segment
    ensures Parent(segment) == ""
  {
    if segment != "" {
      ParentOfSegment(segment[..|segment| - 1]);
    }
  }

  lemma JoinPush(stack: seq<string>, segment: string)
    ensures Join(stack + [segment]) == Child(Join(stack), segment)
  {
  }

  lemma JoinPop(stack: seq<string>)
    requires IsStack(stack)
    ensures Parent(Join(stack)) == if stack == [] then "" else Join(stack[..|stack| - 1])
  {
    if stack != [] {
      var front, top := Join(stack[..|stack| - 1]), stack[|stack| - 1];
      if front == "" {
        ParentOfSegment(top);
      } else {
        ParentOfChild(front, top);
      }
    }
  }

  lemma {:induction false} FoldKeepsStack(stack: seq<string>, segments: seq<string>)
    requires IsStack(stack) && NoSlashes(segments)
    ensures IsStack(Fold(stack, segments)) && (IsNormal(stack) ==> IsNormal(Fold(stack, segments)))
    decreases |segments|
  {
    if segments != [] {
      FoldKeepsStack(Step(stack, segments[0], |segments| == 1), segments[1..]);
    }
  }

  lemma {:induction false} SplitHasNoSlash(b: string)
    ensures NoSlashes(Split(b))
    decreases |b|
  {
    var n := SegmentLength(b);
    if n < |b| {
      SplitHasNoSlash(b[n + 1..]);
    }
  }

  lemma StepJoins(stack: seq<string>, segment: string, last: bool)
    requires IsStack(stack) && '/' !in segment
    ensures Join(Step(stack, segment, last)) ==
      if segment == "" && last then Join(stack) else Enter(Join(stack), segment)
    ensures IsStack(Step(stack, segment, last))
  {
    JoinPop(stack);
    JoinPush(stack, segment);
  }

  lemma {:induction false} ResolveJoinIsFold(stack: seq<string>, b: string)
    requires IsStack(stack)
    ensures Resolve(Join(stack), b) == Join(Fold(stack, Split(b)))
    decreases |b|
  {
    var n := SegmentLength(b);
    var next := Step(stack, b[..n], n == |b|);
    StepJoins(stack, b[..n], n == |b|);
    assert b[..|b|] == b;
    if n < |b| {
      assert Split(b)[1..] == Split(b[n + 1..]);
      ResolveJoinIsFold(next, b[n + 1..]);
    } else {
      assert Fold(stack, [b]) == Fold(next, []);
    }
  }

  lemma {:induction false} SplitOfJoin(stack: seq<string>)
    requires IsStack(stack) && stack != []
    ensures Split(Join(stack)) == stack
  {
    var front, top := stack[..|stack| - 1], stack[|stack| - 1];
    if front == [] {
      SplitOne(top);
    } else {
      SplitOfJoin(front);
      JoinNotEmpty(front);
      SplitOfChild(Join(front), top);
    }
  }

  lemma JoinNotEmpty(stack: seq<string>)
    requires IsStack(stack)
    ensures Join(stack) == "" <==> stack == []
  {
  }

  lemma SegmentLengthIs(b: string, n: nat)
    requires n <= |b| && (n < |b| ==> b[n] == '/') && forall j | 0 <= j < n :: b[j] != '/'
    ensures SegmentLength(b) == n
  {
  }

  lemma SplitAt(b: string, n: nat)
    requires n < |b| && b[n] == '/' && forall j | 0 <= j < n :: b[j] != '/'
    ensures Split(b) == [b[..n]] + Split(b[n + 1..])
  {
    SegmentLengthIs(b, n);
  }

  lemma SplitOne(segment: string)
    requires '/' !in segment
    ensures Split(segment) == [segment]
  {
  }

  lemma {:induction false} SplitOfChild(a: string, segment: string)
    requires '/' !in segment
    ensures Split(a + "/" + segment) == Split(a) + [segment]
    decreases |a|
  {
    var n, path := SegmentLength(a), a + "/" + segment;
    assert path[..n] == a[..n];
    SplitAt(path, n);
    if n == |a| {
      assert path[n + 1..] == segment && a[..n] == a;
      SplitOne(segment);
    } else {
      assert path[n + 1..] == a[n + 1..] + "/" + segment;
      SplitAt(a, n);
      SplitOfChild(a[n + 1..], segment);
      assert [a[..n]] + (Split(a[n + 1..]) + [segment]) == [a[..n]] + Split(a[n + 1..]) + [segment];
    }
  }

  /** A path is one segment, or its parent, a slash and a segment. */
  lemma {:induction false} LastSegment(a: string) returns (segment: string)
    ensures '/' !in segment && (a == segment || a == Parent(a) + "/" + segment)
  {
    if a == "" {
      segment := "";
    } else if a[|a| - 1] == '/' {
      segment := "";
      assert a == Parent(a) + "/" + "";
    } else {
      var front := a[..|a| - 1];
      var shorter := LastSegment(front);
      segment := shorter + [a[|a| - 1]];
      assert a == front + [a[|a| - 1]];
    }
  }

  lemma {:induction false} JoinOfSplit(a: string)
    requires a != "" && a[0] != '/'
    ensures IsStack(Split(a)) && Join(Split(a)) == a
    decreases |a|
  {
    SplitHasNoSlash(a);
    var segment := LastSegment(a);
    if a == segment {
      SplitOne(a);
      JoinPush([], a);
    } else {
      var front := Parent(a);
      assert front != "";
      JoinOfSplit(front);
      SplitOfChild(front, segment);
      JoinPush(Split(front), segment);
    }
  }

  lemma {:induction false} JoinHasNoLeadingSlash(segments: seq<string>)
    requires NoSlashes(segments)
    ensures Join(segments) == "" || Join(segments)[0] != '/'
  {
    if segments != [] {
      JoinHasNoLeadingSlash(segments[..|segments| - 1]);
      assert '/' !in segments[|segments| - 1];
    }
  }

  lemma ResolveIsFold(a: string, b: string)
    requires a == "" || a[0] != '/'
    ensures Resolve(a, b) == Join(Fold(StackOf(a), Split(b)))
  {
    if a != "" {
      JoinOfSplit(a);
    }
    ResolveJoinIsFold(StackOf(a), b);
  }

  /** Resolution is the fold of the second path's segments over the first path's, for every second
      path, exactly when the first path does not start with a slash. */
  lemma ResolveIsFoldIff(a: string)
    ensures (forall b :: Resolve(a, b) == Join(Fold(StackOf(a), Split(b)))) <==> (a == "" || a[0] != '/')
  {
    if a == "" || a[0] != '/' {
      forall b ensures Resolve(a, b) == Join(Fold(StackOf(a), Split(b))) {
        ResolveIsFold(a, b);
      }
    } else {
      SplitHasNoSlash(a);
      JoinHasNoLeadingSlash(Split(a));
      assert Split("") == [""];
      assert Fold(StackOf(a), [""]) == Fold(StackOf(a), []) == StackOf(a);
      assert Resolve(a, "") != Join(Fold(StackOf(a), Split("")));
    }
  }

  /** A normal path: segments that are neither empty nor dots, with single slashes between them. */
  ghost predicate NormalPath(a: string) {
    exists stack :: IsNormal(stack) && a == Join(stack)
  }

  /** From a normal path, resolution leads to a normal path. */
  lemma ResolveKeepsNormal(a: string, b: string)
    requires NormalPath(a)
    ensures NormalPath(Resolve(a, b))
  {
    var stack :| IsNormal(stack) && a == Join(stack);
    ResolveJoinIsFold(stack, b);
    SplitHasNoSlash(b);
    FoldKeepsStack(stack, Split(b));
  }

  lemma {:induction false} FoldOfNormal(stack: seq<string>, segments: seq<string>)
    requires IsNormal(segments)
    ensures Fold(stack, segments) == stack + segments
    decreases |segments|
  {
    if segments != [] {
      FoldOfNormal(stack + [segments[0]], segments[1..]);
    }
  }

  /** A normal path resolved again from the root stays what it is. */
  lemma ResolveFromRoot(a: string)
    requires NormalPath(a)
    ensures Resolve("", a) == a
  {
    var stack :| IsNormal(stack) && a == Join(stack);
    if stack != [] {
      SplitOfJoin(stack);
      ResolveJoinIsFold([], a);
      FoldOfNormal([], stack);
      assert [] + stack == stack && Join([]) == "";
    }
  }

  lemma ResolveTwice(a: string, b: string)
    requires NormalPath(a)
    ensures Resolve("", Resolve(a, b)) == Resolve(a, b)
  {
    ResolveKeepsNormal(a, b);
    ResolveFromRoot(Resolve(a, b));
  }

  /** Going along b and then along c is going along both at once, for any path a. */
  lemma {:induction false} ResolveInSteps(a: string, b: string, c: string)
    requires b != "" && b[|b| - 1] != '/'
    ensures Resolve(Resolve(a, b), c) == Resolve(a, b + "/" + c)
    decreases |b|
  {
    var n, both := SegmentLength(b), b + "/" + c;
    assert both[..n] == b[..n];
    SegmentLengthIs(both, n);
    assert b[..|b|] == b;
    if n == |b| {
      assert both[n + 1..] == c;
    } else {
      var rest := b[n + 1..];
      assert both[n + 1..] == rest + "/" + c;
      ResolveInSteps(Enter(a, b[..n]), rest, c);
    }
  }

  /** An empty segment in the middle, that is a double slash, starts over from the root. */
  lemma DoubleSlashStartsOver(a: string, b: string, c: string)
    requires b != "" && b[|b| - 1] != '/'
    ensures Resolve(a, b + "/" + ("/" + c)) == Resolve("", c)
  {
    ResolveInSteps(a, b, "/" + c);
    assert ("/" + c)[1..] == c;
  }

  /** Everything that a first segment can do, for any current path: a slash starts over and one dot
      stays. */
  lemma ResolveLaws(a: string, b: string)
    ensures Resolve(a, "") == a && Resolve(a, "/" + b) == Resolve("", b)
    ensures Resolve(a, ".") == a && Resolve(a, "./" + b) == Resolve(a, b)
    ensures Resolve(a, "../" + b) == Resolve(Resolve(a, ".."), b)
  {
    OneSegment(a, "", b);
    OneSegment(a, ".", b);
    OneSegment(a, "..", b);
    assert "" + "/" + b == "/" + b && "." + "/" + b == "./" + b && ".." + "/" + b == "../" + b;
  }

  /** A name goes down. */
  lemma DownLaws(a: string, name: string, b: string)
    requires '/' !in name && name != "" && name != "." && name != ".."
    ensures Resolve(a, name) == if a == "" then name else a + "/" + name
    ensures Resolve(a, name + "/" + b) == Resolve(Resolve(a, name), b)
  {
    OneSegment(a, name, b);
  }

  lemma OneSegment(a: string, segment: string, b: string)
    requires '/' !in segment
    ensures segment != "" ==> Resolve(a, segment) == Enter(a, segment)
    ensures Resolve(a, segment + "/" + b) == Resolve(Enter(a, segment), b)
  {
    SegmentLengthIs(segment, |segment|);
    assert segment[..|segment|] == segment;
    var path := segment + "/" + b;
    SegmentLengthIs(path, |segment|);
    assert path[..|segment|] == segment && path[|segment| + 1..] == b;
  }

  /** Two dots take off exactly what a name, slash or no slash, put on. */
  lemma UpLaws(a: string, segment: string)
    requires '/' !in segment
    ensures Resolve("", "..") == "" && Resolve(segment, "..") == ""
    ensures Resolve(a + "/" + segment, "..") == a
  {
    OneSegment("", "..", "");
    OneSegment(segment, "..", "");
    OneSegment(a + "/" + segment, "..", "");
    ParentOfSegment(segment);
    ParentOfChild(a, segment);
  }
}
