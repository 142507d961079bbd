/** Class-name composition (`src/lib/utils.ts`): class values flattened to a
    list of class names and joined with spaces. The conflict resolution of
    `twMerge` applied to the joined string is not part of this model. Numbers
    are integers. */
module ClassNames {
  import opened Wrappers
  import opened JsText

  /** A class value: a string, a number, `null`, `undefined`, a boolean, an
      array of class values, or an object from class names to a flag that is
      `true`, `false`, `null` or `undefined` (`None`). */
  datatype ClassValue =
    | Str(s: string)
    | Num(n: int)
    | Null
    | Undefined
    | Bool(b: bool)
    | Arr(items: seq<ClassValue>)
    | Obj(entries: seq<(string, Option<bool>)>)

  /** JavaScript's falsy class values. */
  predicate Falsy(v: ClassValue)
  {
    v == Null || v == Undefined || v == Bool(false) || v == Num(0) || v == Str("")
  }

  /** The names of the entries whose flag is `true`, in entry order. */
  function EnabledKeys(entries: seq<(string, Option<bool>)>): (r: seq<string>)
    ensures |r| <= |entries|
    ensures forall k :: k in r <==> exists i :: 0 <= i < |entries| && entries[i] == (k, Some(true))
  {
    if entries == [] then []
    else
      var rest := EnabledKeys(entries[1..]);
      assert forall i :: 1 <= i < |entries| ==> entries[i] == entries[1..][i - 1];
      assert forall i :: 0 <= i < |entries[1..]| ==> entries[1..][i] == entries[i + 1];
      (if entries[0].1 == Some(true) then [entries[0].0] else []) + rest
  }

  /** Enabled names of consecutive entries follow each other. */
  lemma {:induction false} EnabledKeysAppend(a: seq<(string, Option<bool>)>, b: seq<(string, Option<bool>)>)
    ensures EnabledKeys(a + b) == EnabledKeys(a) + EnabledKeys(b)
    decreases |a|
  {
    if a == [] {
      assert a + b == b;
    } else {
      assert (a + b)[0] == a[0] && (a + b)[1..] == a[1..] + b;
      EnabledKeysAppend(a[1..], b);
      var head := if a[0].1 == Some(true) then [a[0].0] else [];
      assert EnabledKeys(a + b) == head + EnabledKeys(a[1..] + b);
      assert EnabledKeys(a) == head + EnabledKeys(a[1..]);
    }
  }

  /** `flattenClassValue`: nothing for a falsy value; a non-empty string or a
      non-zero number as itself; an array as its elements' names in order; an
      object as its enabled names in order; nothing for `true`. */
  function Flatten(v: ClassValue): (r: seq<string>)
    ensures Falsy(v) || v == Bool(true) ==> r == []
    ensures v.Str? && v.s != "" ==> r == [v.s]
    ensures v.Num? && v.n != 0 ==> r == [IntToString(v.n)]
    ensures v.Obj? ==> r == EnabledKeys(v.entries)
    decreases v
  {
    if Falsy(v) then []
    else
      match v
      case Str(s) => [s]
      case Num(n) => [IntToString(n)]
      case Arr(items) => FlattenAll(items)
      case Obj(entries) => EnabledKeys(entries)
      case _ => []
  }

  /** `flatMap(flattenClassValue)` over the elements of an array. */
  function FlattenAll(items: seq<ClassValue>): (r: seq<string>)
    decreases items
  {
    if items == [] then [] else Flatten(items[0]) + FlattenAll(items[1..])
  }

  /** The names of an array are the names of its elements. */
  lemma {:induction false} FlattenArrMembers(items: seq<ClassValue>, x: string)
    ensures x in Flatten(Arr(items)) <==> exists i :: 0 <= i < |items| && x in Flatten(items[i])
    decreases |items|
  {
    if items != [] {
      FlattenArrMembers(items[1..], x);
      assert forall i :: 1 <= i < |items| ==> items[i] == items[1..][i - 1];
      assert forall i :: 0 <= i < |items[1..]| ==> items[1..][i] == items[i + 1];
    }
  }

  /** Flattening an array works element by element: the names of a joined
      array are the names of its parts, in order. */
  lemma {:induction false} FlattenAppend(a: seq<ClassValue>, b: seq<ClassValue>)
    ensures Flatten(Arr(a + b)) == Flatten(Arr(a)) + Flatten(Arr(b))
    decreases |a|
  {
    if a == [] {
      assert a + b == b;
    } else {
      assert (a + b)[0] == a[0] && (a + b)[1..] == a[1..] + b;
      FlattenAppend(a[1..], b);
    }
  }

  /** An array of one value flattens to that value's names, so nesting arrays
      changes nothing. */
  lemma FlattenSingleton(v: ClassValue)
    ensures Flatten(Arr([v])) == Flatten(v)
  {
    assert !Falsy(Arr([v]));
    assert [v][1..] == [];
    assert FlattenAll([v]) == Flatten(v) + FlattenAll([]);
  }

  /** `cn` before `twMerge`: the names of all arguments joined with single
      spaces. */
  function Cn(inputs: seq<ClassValue>): (r: string)
    ensures inputs == [] ==> r == ""
  {
    Join(Flatten(Arr(inputs)), " ")
  }

  /** Joining two non-empty lists is joining each and putting a space
      between. */
  lemma {:induction false} JoinAppend(a: seq<string>, b: seq<string>)
    requires a != [] && b != []
    ensures Join(a + b, " ") == Join(a, " ") + " " + Join(b, " ")
    decreases |a|
  {
    if |a| == 1 {
      assert (a + b)[1..] == b;
    } else {
      assert (a + b)[1..] == a[1..] + b;
      JoinAppend(a[1..], b);
    }
  }

  /** Arguments that flatten to nothing leave no trace in the class string,
      and the class strings of two argument lists with names are joined by
      one space. */
  lemma CnAppend(a: seq<ClassValue>, b: seq<ClassValue>)
    ensures Flatten(Arr(a)) == [] ==> Cn(a + b) == Cn(b)
    ensures Flatten(Arr(b)) == [] ==> Cn(a + b) == Cn(a)
    ensures Flatten(Arr(a)) != [] && Flatten(Arr(b)) != [] ==> Cn(a + b) == Cn(a) + " " + Cn(b)
  {
    FlattenAppend(a, b);
    var fa, fb := Flatten(Arr(a)), Flatten(Arr(b));
    if fa == [] {
      assert fa + fb == fb;
    } else if fb == [] {
      assert fa + fb == fa;
    } else {
      JoinAppend(fa, fb);
    }
  }
}
