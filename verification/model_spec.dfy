/** `ModelSpecImpl`: a node path paired with the serializer of the values
    stored under it. The serializer is opaque here: only its identity matters. */
module ModelSpecs {
  import opened Wrappers
  import opened Exceptions
  import opened Paths

  /** Two specs are equal exactly when their paths and serializers are. */
  datatype ModelSpec<S> = ModelSpec(path: NodePath, serializer: S)

  /** The constructor: a missing (null) path or serializer is refused. */
  function NewModelSpec<S>(path: Option<NodePath>, serializer: Option<S>): (r: Result<ModelSpec<S>, Exc>)
    ensures r.Success? <==> path.Some? && serializer.Some?
    ensures r.Success? ==> r.value.path == path.value && r.value.serializer == serializer.value
    ensures path.None? ==> r == Failure(Exc(NullPointerClass, "path cannot be null"))
    ensures path.Some? && serializer.None? ==> r == Failure(Exc(NullPointerClass, "serializer cannot be null"))
  {
    if path.None? then Failure(Exc(NullPointerClass, "path cannot be null"))
    else if serializer.None? then Failure(Exc(NullPointerClass, "serializer cannot be null"))
    else Success(ModelSpec(path.value, serializer.value))
  }

  /** `withPath`: a spec for another path, through the constructor. */
  function WithPath<S>(spec: ModelSpec<S>, newPath: Option<NodePath>): (r: Result<ModelSpec<S>, Exc>)
    ensures r.Success? <==> newPath.Some?
    ensures r.Success? ==> r.value.path == newPath.value && r.value.serializer == spec.serializer
    ensures r.Failure? ==> r.error.cls == NullPointerClass
  {
    NewModelSpec(newPath, Some(spec.serializer))
  }

  function SpecChild<S>(spec: ModelSpec<S>, name: string): (r: ModelSpec<S>)
    ensures r.path == Child(spec.path, name) && r.serializer == spec.serializer
  {
    WithPath(spec, Some(Child(spec.path, name))).value
  }

  /** `parent()`: fails exactly as the path's parent does. */
  function SpecParent<S>(spec: ModelSpec<S>): (r: Result<ModelSpec<S>, Exc>)
    ensures r.Success? <==> Parent(spec.path).Success?
    ensures r.Success? ==> r.value.path == Parent(spec.path).value && r.value.serializer == spec.serializer
    ensures r.Failure? ==> r.error == Parent(spec.path).error
  {
    var p :- Parent(spec.path);
    WithPath(spec, Some(p))
  }

  function SpecResolved<S>(spec: ModelSpec<S>, args: seq<string>): (r: ModelSpec<S>)
    ensures r.path == Resolved(spec.path, args) && r.serializer == spec.serializer
  {
    WithPath(spec, Some(Resolved(spec.path, args))).value
  }

  /** A child spec's parent is the spec itself. */
  lemma SpecChildParent<S>(spec: ModelSpec<S>, name: string)
    ensures SpecParent(SpecChild(spec, name)) == Success(spec)
  {
    ChildParent(spec.path, name);
  }

  /** Replacing the path twice keeps only the second, and replacing it with
      its own path changes nothing. */
  lemma WithPathLaws<S>(spec: ModelSpec<S>, p: NodePath, q: NodePath)
    ensures WithPath(WithPath(spec, Some(p)).value, Some(q)) == WithPath(spec, Some(q))
    ensures WithPath(spec, Some(spec.path)) == Success(spec)
  {
  }

  /** The root spec has no parent. */
  lemma RootSpecHasNoParent<S>(serializer: S)
    ensures SpecParent(ModelSpec(Root, serializer)) == Failure(Exc(NoSuchElementClass, "The root has no parent"))
  {
  }
}
