/** `NodePathImpl`: a path is the list of its nodes, the first being the root
    separator "/" and the others node names. A name longer than one
    character that starts with the separator is a parameter, to be replaced
    by `resolved`. */
module Paths {
  import opened Wrappers
  import opened Exceptions

  const Separator: string := "/"

  /** Every path holds at least its root node. */
  type NodeList = s: seq<string> | |s| > 0 witness [Separator]

  /** Two paths are equal exactly when their node lists are (`equals`/`hashCode`). */
  datatype NodePath = NodePath(nodes: NodeList)

  const Root: NodePath := NodePath([Separator])

  predicate IsParameter(name: string) {
    |name| > 1 && name[0] == '/'
  }

  predicate IsResolved(p: NodePath) {
    forall i :: 0 <= i < |p.nodes| ==> !IsParameter(p.nodes[i])
  }

  predicate IsRoot(p: NodePath) {
    |p.nodes| == 1
  }

  /** A parameter is a name of two or more characters that starts with the
      separator: the root node itself is not one, so the root is resolved. */
  lemma ParameterNames()
    ensures IsParameter("/id") && !IsParameter("/") && !IsParameter("id") && !IsParameter("")
    ensures IsRoot(Root) && IsResolved(Root)
    ensures !IsResolved(NodePath([Separator, "/id"]))
  {
    assert NodePath([Separator, "/id"]).nodes[1] == "/id";
  }

  predicate NoSeparator(name: string) {
    forall i :: 0 <= i < |name| ==> name[i] != '/'
  }

  /** The names joined with the separator between consecutive names. */
  function Join(names: seq<string>): string
    decreases |names|
  {
    if |names| == 0 then ""
    else if |names| == 1 then names[0]
    else names[0] + Separator + Join(names[1..])
  }

  /** Guava's `Splitter.on("/").omitEmptyStrings()`: the maximal runs of
      non-separator characters, in order. `cur` is the run being read. */
  function SplitFrom(s: string, cur: string): (parts: seq<string>)
    requires NoSeparator(cur)
    ensures forall k :: 0 <= k < |parts| ==> |parts[k]| > 0 && NoSeparator(parts[k])
    decreases |s|
  {
    var done := if cur == "" then [] else [cur];
    if |s| == 0 then done
    else if s[0] == '/' then done + SplitFrom(s[1..], "")
    else SplitFrom(s[1..], cur + [s[0]])
  }

  function Split(s: string): (parts: seq<string>)
    ensures forall k :: 0 <= k < |parts| ==> |parts[k]| > 0 && NoSeparator(parts[k])
  {
    SplitFrom(s, "")
  }

  /** `parse(fullPath, nameFilter)`: the root followed by the filtered
      non-empty segments of `full`. */
  function Parse(full: string, filter: string -> string): (p: NodePath)
    ensures p.nodes[0] == Separator
    ensures |p.nodes| == |Split(full)| + 1
    ensures forall k :: 1 <= k < |p.nodes| ==> p.nodes[k] == filter(Split(full)[k - 1])
  {
    var parts := Split(full);
    NodePath([Separator] + seq(|parts|, k requires 0 <= k < |parts| => filter(parts[k])))
  }

  /** `child(name)`. */
  function Child(p: NodePath, name: string): (c: NodePath)
    ensures |c.nodes| == |p.nodes| + 1 && c.nodes[|p.nodes|] == name
  {
    NodePath(p.nodes + [name])
  }

  /** `parent()`: the path without its last node; the root has none. */
  function Parent(p: NodePath): (r: Result<NodePath, Exc>)
    ensures r.Failure? <==> IsRoot(p)
    ensures r.Failure? ==> r.error == Exc(NoSuchElementClass, "The root has no parent")
    ensures r.Success? ==> |r.value.nodes| + 1 == |p.nodes| && Child(r.value, p.nodes[|p.nodes| - 1]) == p
  {
    if IsRoot(p) then Failure(Exc(NoSuchElementClass, "The root has no parent"))
    else Success(NodePath(p.nodes[..|p.nodes| - 1]))
  }

  /** `startsWith`: the node list of `prefix` is a prefix of that of `p`. */
  predicate StartsWith(p: NodePath, prefix: NodePath) {
    |p.nodes| >= |prefix.nodes| && p.nodes[..|prefix.nodes|] == prefix.nodes
  }

  /** The path text `buildFullPath` produces: the root node, then the names
      joined by the separator. */
  function Render(nodes: NodeList): string {
    nodes[0] + Join(nodes[1..])
  }

  /** `Join` of a longer list appends one separator and the new name. */
  lemma {:induction false} JoinSnoc(names: seq<string>, name: string)
    requires |names| > 0
    ensures Join(names + [name]) == Join(names) + Separator + name
    decreases |names|
  {
    if |names| > 1 {
      assert (names + [name])[1..] == names[1..] + [name];
      JoinSnoc(names[1..], name);
    }
  }

  /** `buildFullPath(s -> s)`: the loop writes each node, with a separator
      before every node after the first name. */
  method BuildFullPath(nodes: NodeList) returns (str: string)
    ensures str == Render(nodes)
    ensures |nodes| == 1 ==> str == nodes[0]
  {
    str := "";
    var i := 0;
    while i < |nodes|
      invariant 0 <= i <= |nodes|
      invariant i == 0 ==> str == ""
      invariant i > 0 ==> str == nodes[0] + Join(nodes[1..i])
    {
      if i > 1 {
        str := str + Separator;
      }
      if i > 1 {
        JoinSnoc(nodes[1..i], nodes[i]);
        assert nodes[1..i + 1] == nodes[1..i] + [nodes[i]];
      } else if i == 1 {
        assert nodes[1..2] == [nodes[1]];
      }
      str := str + nodes[i];
      i := i + 1;
    }
    assert nodes[1..|nodes|] == nodes[1..];
  }

  /** Drops the separator in front of a parameter's name. */
  function Unparameterised(name: string): string {
    if IsParameter(name) then name[1..] else name
  }

  /** `toString`: "/" and the names joined by "/", parameters shown without
      their leading separator. */
  function ToString(p: NodePath): (s: string)
    ensures |s| > 0 && s[0] == '/'
  {
    var names := p.nodes[1..];
    Separator + Join(seq(|names|, k requires 0 <= k < |names| => Unparameterised(names[k])))
  }

  /** `fullPath()`: the rendered path of a resolved path; an unresolved one
      is refused. */
  function FullPath(p: NodePath): (r: Result<string, Exc>)
    ensures r.Success? <==> IsResolved(p)
    ensures r.Success? ==> r.value == Render(p.nodes)
    ensures r.Failure? ==> r.error.cls == IllegalStateClass
    ensures r.Success? && p == Root ==> r.value == "/"
  {
    if !IsResolved(p) then Failure(Exc(IllegalStateClass, "This NodePath has not been resolved: " + ToString(p)))
    else Success(Render(p.nodes))
  }

  /** The number of parameters among `names`. */
  function ParameterCount(names: seq<string>): nat
    decreases |names|
  {
    if |names| == 0 then 0
    else ParameterCount(names[..|names| - 1]) + (if IsParameter(names[|names| - 1]) then 1 else 0)
  }

  /** The substitution of `resolved`: each parameter takes the next unused
      argument; a parameter left without one stays. */
  function Substitute(names: seq<string>, args: seq<string>): (r: seq<string>)
    decreases |names|
    ensures |r| == |names|
  {
    if |names| == 0 then []
    else if IsParameter(names[0]) && |args| > 0 then [args[0]] + Substitute(names[1..], args[1..])
    else [names[0]] + Substitute(names[1..], args)
  }

  /** What node `i` becomes: the k-th parameter from the left receives
      `args[k]` when there is one; every other node is kept. */
  function SubstitutedAt(names: seq<string>, args: seq<string>, i: nat): string
    requires i < |names|
  {
    var k := ParameterCount(names[..i]);
    if IsParameter(names[i]) && k < |args| then args[k] else names[i]
  }

  /** Node `i` of the substitution is the one the left-to-right count of
      parameters assigns it. */
  lemma {:induction false} SubstituteAt(names: seq<string>, args: seq<string>, i: nat)
    requires i < |names|
    ensures Substitute(names, args)[i] == SubstitutedAt(names, args, i)
    decreases |names|
  {
    if i == 0 {
      assert names[..0] == [];
    } else {
      var rest := if IsParameter(names[0]) && |args| > 0 then args[1..] else args;
      SubstituteAt(names[1..], rest, i - 1);
      CountFirst(names, i);
      assert names[1..][i - 1] == names[i];
      assert names[1..][..i - 1] == names[1..i];
    }
  }

  /** The k-th parameter from the left receives `args[k]` when there is one;
      every other node is kept. */
  lemma SubstituteSpec(names: seq<string>, args: seq<string>)
    ensures |Substitute(names, args)| == |names|
    ensures forall i :: 0 <= i < |names| ==>
      Substitute(names, args)[i] ==
        if IsParameter(names[i]) && ParameterCount(names[..i]) < |args| then args[ParameterCount(names[..i])]
        else names[i]
  {
    forall i | 0 <= i < |names|
      ensures Substitute(names, args)[i] == SubstitutedAt(names, args, i)
    {
      SubstituteAt(names, args, i);
    }
  }

  /** Counting from the front: the first name contributes first. */
  lemma {:induction false} CountFirst(names: seq<string>, i: nat)
    requires 0 < i <= |names|
    ensures ParameterCount(names[..i]) == (if IsParameter(names[0]) then 1 else 0) + ParameterCount(names[1..i])
    decreases i
  {
    if i > 1 {
      CountFirst(names, i - 1);
      assert names[..i][..i - 1] == names[..i - 1];
      assert names[1..i][..i - 2] == names[1..i - 1];
    } else {
      assert names[..1][..0] == [];
    }
  }

  /** `resolved(args)`. */
  function Resolved(p: NodePath, args: seq<string>): (r: NodePath)
    ensures |r.nodes| == |p.nodes|
  {
    SubstituteSpec(p.nodes, args);
    NodePath(Substitute(p.nodes, args))
  }

  /** Enough arguments, none of them a parameter, resolve every parameter;
      arguments beyond the parameters are ignored. */
  lemma ResolvedIsResolved(p: NodePath, args: seq<string>)
    requires ParameterCount(p.nodes) <= |args|
    requires forall k :: 0 <= k < |args| ==> !IsParameter(args[k])
    ensures IsResolved(Resolved(p, args))
  {
    SubstituteSpec(p.nodes, args);
    forall i | 0 <= i < |p.nodes|
      ensures IsParameter(p.nodes[i]) ==> ParameterCount(p.nodes[..i]) < |args|
    {
      if IsParameter(p.nodes[i]) {
        CountMonotone(p.nodes, i + 1);
        assert p.nodes[..i + 1][..i] == p.nodes[..i];
      }
    }
  }

  lemma {:induction false} CountMonotone(names: seq<string>, i: nat)
    requires i <= |names|
    ensures ParameterCount(names[..i]) <= ParameterCount(names)
    decreases |names| - i
  {
    if i < |names| {
      CountMonotone(names, i + 1);
      assert names[..i + 1][..i] == names[..i];
    } else {
      assert names[..i] == names;
    }
  }

  /** With no arguments a path is unchanged. */
  lemma ResolvedWithoutArguments(p: NodePath)
    ensures Resolved(p, []) == p
  {
    SubstituteSpec(p.nodes, []);
    assert Substitute(p.nodes, []) == p.nodes;
  }

  /** `p.child(x).parent()` is `p`. */
  lemma ChildParent(p: NodePath, name: string)
    ensures Parent(Child(p, name)) == Success(p)
  {
    assert (p.nodes + [name])[..|p.nodes|] == p.nodes;
  }

  /** `startsWith` is reflexive and a child starts with its parent. */
  lemma StartsWithChild(p: NodePath, name: string)
    ensures StartsWith(p, p)
    ensures StartsWith(Child(p, name), p)
    ensures !StartsWith(p, Child(p, name))
  {
    assert (p.nodes + [name])[..|p.nodes|] == p.nodes;
  }

  /** The root is the only one-node path that parse produces, and every
      parsed path starts with it. */
  lemma ParsedStartsAtRoot(full: string, filter: string -> string)
    ensures StartsWith(Parse(full, filter), Root)
    ensures IsRoot(Parse(full, filter)) <==> Split(full) == []
  {
  }

  /** "/a//b/" parses to the nodes "/", "a", "b". */
  lemma ParseDropsEmptySegments()
    ensures Parse("/a//b/", x => x).nodes == ["/", "a", "b"]
  {
    assert SplitFrom("", "") == [];
    assert "/"[1..] == "";
    assert SplitFrom("/", "b") == ["b"];
    assert "b/"[1..] == "/" && "" + ['b'] == "b";
    assert SplitFrom("b/", "") == ["b"];
    assert "/b/"[1..] == "b/";
    assert SplitFrom("/b/", "") == ["b"];
    assert "//b/"[1..] == "/b/";
    assert SplitFrom("//b/", "a") == ["a", "b"];
    assert "a//b/"[1..] == "//b/" && "" + ['a'] == "a";
    assert SplitFrom("a//b/", "") == ["a", "b"];
    assert "/a//b/"[1..] == "a//b/";
    assert Split("/a//b/") == ["a", "b"];
  }

  /** Reading a run of non-separator characters extends the current segment. */
  lemma {:induction false} SplitRun(a: string, s: string, cur: string)
    requires NoSeparator(a) && NoSeparator(cur)
    ensures NoSeparator(cur + a)
    ensures SplitFrom(a + s, cur) == SplitFrom(s, cur + a)
    decreases |a|
  {
    if |a| > 0 {
      assert (a + s)[0] == a[0] && (a + s)[1..] == a[1..] + s;
      SplitRun(a[1..], s, cur + [a[0]]);
      assert cur + [a[0]] + a[1..] == cur + a;
    } else {
      assert a + s == s && cur + a == cur;
    }
  }

  /** Splitting the joined names gives the names back. */
  lemma {:induction false} SplitJoin(names: seq<string>)
    requires forall k :: 0 <= k < |names| ==> |names[k]| > 0 && NoSeparator(names[k])
    ensures SplitFrom(Join(names), "") == names
    decreases |names|
  {
    if |names| == 1 {
      SplitRun(names[0], "", "");
      assert names[0] + "" == names[0] && "" + names[0] == names[0];
      assert SplitFrom("", names[0]) == [names[0]];
    } else if |names| > 1 {
      var rest := Join(names[1..]);
      var tail := Separator + rest;
      SplitRun(names[0], tail, "");
      assert Join(names) == names[0] + tail;
      assert "" + names[0] == names[0];
      assert tail[0] == '/' && tail[1..] == rest;
      assert SplitFrom(tail, names[0]) == [names[0]] + SplitFrom(rest, "");
      SplitJoin(names[1..]);
      assert [names[0]] + names[1..] == names;
    }
  }

  /** A leading separator adds no segment. */
  lemma SplitRendered(names: seq<string>)
    requires forall k :: 0 <= k < |names| ==> |names[k]| > 0 && NoSeparator(names[k])
    ensures Split(Separator + Join(names)) == names
  {
    var text := Separator + Join(names);
    assert text[0] == '/' && text[1..] == Join(names);
    assert SplitFrom(text, "") == [] + SplitFrom(Join(names), "");
    SplitJoin(names);
  }

  /** Separator-free, non-empty names are not parameters. */
  lemma PlainNamesResolved(p: NodePath)
    requires p.nodes[0] == Separator
    requires forall k :: 1 <= k < |p.nodes| ==> |p.nodes[k]| > 0 && NoSeparator(p.nodes[k])
    ensures IsResolved(p)
  {
    forall i | 0 <= i < |p.nodes|
      ensures !IsParameter(p.nodes[i])
    {
      if i > 0 {
        assert p.nodes[i][0] != '/';
      }
    }
  }

  /** Parsing the full path of a resolved path whose names are non-empty and
      free of separators gives the path back. */
  lemma ParseFullPath(p: NodePath)
    requires p.nodes[0] == Separator
    requires forall k :: 1 <= k < |p.nodes| ==> |p.nodes[k]| > 0 && NoSeparator(p.nodes[k])
    ensures IsResolved(p)
    ensures FullPath(p).Success? && Parse(FullPath(p).value, x => x) == p
  {
    var names := p.nodes[1..];
    forall k | 0 <= k < |names|
      ensures |names[k]| > 0 && NoSeparator(names[k])
    {
      assert names[k] == p.nodes[k + 1];
    }
    PlainNamesResolved(p);
    SplitRendered(names);
    var q := Parse(FullPath(p).value, x => x);
    forall k | 0 <= k < |p.nodes|
      ensures q.nodes[k] == p.nodes[k]
    {
      if k > 0 {
        assert q.nodes[k] == names[k - 1];
      }
    }
    assert q.nodes == p.nodes;
  }

  /** `toString` agrees with `fullPath` on resolved paths rooted at the separator. */
  lemma ToStringOfResolved(p: NodePath)
    requires IsResolved(p) && p.nodes[0] == Separator
    ensures FullPath(p) == Success(ToString(p))
  {
    var names := p.nodes[1..];
    var shown := seq(|names|, k requires 0 <= k < |names| => Unparameterised(names[k]));
    forall k | 0 <= k < |names|
      ensures shown[k] == names[k]
    {
      assert names[k] == p.nodes[k + 1];
    }
    assert shown == names;
  }

  /** An unresolved path has no full path but still a textual form. */
  lemma UnresolvedHasNoFullPath()
    ensures FullPath(NodePath(["/", "users", "/id"])).Failure?
    ensures ToString(NodePath(["/", "users", "/id"])) == "/users/id"
  {
    assert IsParameter("/id");
    assert Unparameterised("/id") == "id";
    var names := NodePath(["/", "users", "/id"]).nodes[1..];
    assert seq(|names|, k requires 0 <= k < |names| => Unparameterised(names[k])) == ["users", "id"];
    assert Join(["users", "id"]) == "users" + "/" + Join(["id"]);
    assert ["users", "id"][1..] == ["id"];
  }
}
