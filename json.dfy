/** Decoded JSON as Python sees it after `response.json()`, with the three
    Python operations the CrossRef reader applies to it: subscripting with a
    key or an index, slicing with `[:n]`, and truth testing; and `str()`,
    used when a value is formatted into a file name. */
module Json {
  import opened Wrappers
  import opened Errors
  import Text

  /** Objects keep their members in document order. JSON numbers are
      modelled as integers. */
  datatype Json =
    | JNull
    | JBool(b: bool)
    | JInt(i: int)
    | JStr(s: string)
    | JArr(items: seq<Json>)
    | JObj(members: seq<(string, Json)>)

  /** The value bound to `key`; when the document repeats a key, the decoder
      keeps the last value. */
  function Lookup(members: seq<(string, Json)>, key: string): (v: Option<Json>)
    ensures v.None? <==> forall k :: 0 <= k < |members| ==> members[k].0 != key
    // the value of the last member with that name
    ensures v.Some? ==> exists k :: 0 <= k < |members| && members[k] == (key, v.value) &&
                          forall k' :: k < k' < |members| ==> members[k'].0 != key
    decreases |members|
  {
    if members == [] then None
    else if members[|members| - 1].0 == key then Some(members[|members| - 1].1)
    else Lookup(members[..|members| - 1], key)
  }

  /** `j[key]` for a string key. */
  function GetKey(j: Json, key: string): (r: Result<Json, Failure>)
    ensures r.Ok? <==> j.JObj? && Lookup(j.members, key).Some?
    ensures r.Ok? ==> r.value == Lookup(j.members, key).value
    ensures r.Err? ==> r.error == (if j.JObj? then KeyError else TypeError)
  {
    match j
    case JObj(members) =>
      (match Lookup(members, key)
       case Some(v) => Ok(v)
       case None => Err(KeyError))
    case _ => Err(TypeError)
  }

  /** `j[n]` for a non-negative integer index. A string yields its n-th
      character; an object has string keys only, so the integer is missing. */
  function GetIndex(j: Json, n: nat): (r: Result<Json, Failure>)
    ensures j.JArr? && n < |j.items| ==> r == Ok(j.items[n])
    ensures j.JStr? && n < |j.s| ==> r == Ok(JStr([j.s[n]]))
    ensures (j.JArr? && n >= |j.items|) || (j.JStr? && n >= |j.s|) ==> r == Err(IndexError)
    ensures j.JObj? ==> r == Err(KeyError)
    ensures j.JNull? || j.JBool? || j.JInt? ==> r == Err(TypeError)
  {
    match j
    case JArr(items) => if n < |items| then Ok(items[n]) else Err(IndexError)
    case JStr(s) => if n < |s| then Ok(JStr([s[n]])) else Err(IndexError)
    case JObj(_) => Err(KeyError)
    case _ => Err(TypeError)
  }

  /** One subscript: `[key]` with a string or `[n]` with an index. */
  datatype Step = Key(key: string) | At(n: nat)

  function Subscript(j: Json, step: Step): Result<Json, Failure> {
    match step
    case Key(key) => GetKey(j, key)
    case At(n) => GetIndex(j, n)
  }

  /** `j[s1][s2]...[sk]`: the subscripts applied left to right, the first
      one that fails raising its error. */
  function Follow(j: Json, path: seq<Step>): (r: Result<Json, Failure>)
    ensures path == [] ==> r == Ok(j)
    ensures |path| == 1 ==> r == Subscript(j, path[0])
    decreases |path|
  {
    if path == [] then Ok(j)
    else
      var next :- Subscript(j, path[0]);
      Follow(next, path[1..])
  }

  /** A chain of subscripts can be cut anywhere: following `p + q` is
      following `p`, then `q` from where `p` led, failing as soon as `p`
      does. */
  lemma {:induction false} FollowAppend(j: Json, p: seq<Step>, q: seq<Step>)
    ensures Follow(j, p + q) == match Follow(j, p) case Err(e) => Err(e) case Ok(v) => Follow(v, q)
    decreases |p|
  {
    if p == [] {
      assert p + q == q;
    } else {
      assert (p + q)[0] == p[0] && (p + q)[1..] == p[1..] + q;
      match Subscript(j, p[0])
      case Err(e) =>
      case Ok(next) => FollowAppend(next, p[1..], q);
    }
  }

  /** `j[:n]`: the first n characters or items, fewer when there are fewer. */
  function SliceTo(j: Json, n: nat): (r: Result<Json, Failure>)
    ensures r.Ok? <==> j.JStr? || j.JArr?
    // a prefix of n characters or items, or the whole value when it is shorter
    ensures r.Ok? && j.JStr? ==>
      r.value.JStr? && Text.StartsWith(j.s, r.value.s) && |r.value.s| == (if n <= |j.s| then n else |j.s|)
    ensures r.Ok? && j.JArr? ==>
      r.value.JArr? && r.value.items <= j.items && |r.value.items| == (if n <= |j.items| then n else |j.items|)
  {
    match j
    case JStr(s) => Ok(JStr(if n <= |s| then s[..n] else s))
    case JArr(items) => Ok(JArr(if n <= |items| then items[..n] else items))
    case _ => Err(TypeError)
  }

  /** Python truth value: None, False, 0 and empty strings, lists and
      objects are false. */
  predicate Truthy(j: Json) {
    match j
    case JNull => false
    case JBool(b) => b
    case JInt(i) => i != 0
    case JStr(s) => s != []
    case JArr(items) => items != []
    case JObj(members) => members != []
  }

  /** The keys of an object in the order a Python dict keeps them: each
      once, at its first position (KeysInOrder). */
  function Keys(members: seq<(string, Json)>): (keys: seq<string>)
    ensures forall key :: key in keys <==> exists k :: 0 <= k < |members| && members[k].0 == key
    ensures forall i, j :: 0 <= i < j < |keys| ==> keys[i] != keys[j]
    decreases |members|
  {
    if members == [] then []
    else
      var front := Keys(members[..|members| - 1]);
      var key := members[|members| - 1].0;
      assert forall k :: 0 <= k < |members| - 1 ==> members[..|members| - 1][k] == members[k];
      if key in front then front else front + [key]
  }

  /** The keys come in the order of first appearance: keys[i] occurs before
      keys[j] first does. */
  lemma {:induction false} KeysInOrder(members: seq<(string, Json)>)
    ensures forall i, j :: 0 <= i < j < |Keys(members)| ==>
      exists k :: 0 <= k < |members| && members[k].0 == Keys(members)[i] &&
                  forall k' :: 0 <= k' <= k ==> members[k'].0 != Keys(members)[j]
    decreases |members|
  {
    if members == [] {
      assert Keys(members) == [];
    } else {
      var init := members[..|members| - 1];
      KeysInOrder(init);
      var front := Keys(init);
      var key := members[|members| - 1].0;
      assert Keys(members) == if key in front then front else front + [key];
      assert forall k :: 0 <= k < |init| ==> init[k] == members[k];
      forall i, j | 0 <= i < j < |Keys(members)|
        ensures exists k :: 0 <= k < |members| && members[k].0 == Keys(members)[i] &&
                  forall k' :: 0 <= k' <= k ==> members[k'].0 != Keys(members)[j]
      {
        if j < |front| {
          assert Keys(members)[i] == front[i] && Keys(members)[j] == front[j];
          var k :| 0 <= k < |init| && init[k].0 == front[i] &&
                   forall k' :: 0 <= k' <= k ==> init[k'].0 != front[j];
          assert members[k].0 == Keys(members)[i];
        } else {
          assert Keys(members)[i] in front;
          var k :| 0 <= k < |init| && init[k].0 == Keys(members)[i];
          assert members[k].0 == Keys(members)[i];
        }
      }
    }
  }

  /** The object as the dict `json.loads` builds from it: each key once, at
      its first position, bound to its last value. */
  function Dict(members: seq<(string, Json)>): (d: seq<(string, Json)>)
    ensures |d| == |Keys(members)|
    ensures forall i :: 0 <= i < |d| ==> d[i].0 == Keys(members)[i] && Lookup(members, d[i].0) == Some(d[i].1)
    ensures forall i :: 0 <= i < |d| ==> d[i] in members
  {
    var keys := Keys(members);
    forall i | 0 <= i < |keys| ensures Lookup(members, keys[i]).Some? {
      assert keys[i] in keys;
    }
    seq(|keys|, i requires 0 <= i < |keys| => (keys[i], Lookup(members, keys[i]).value))
  }

  /** `repr()` of a value, as it appears inside a list or an object. */
  function Repr(j: Json): string
    decreases j
  {
    match j
    case JNull => "None"
    case JBool(b) => if b then "True" else "False"
    case JInt(i) => Text.IntToString(i)
    case JStr(s) => "'" + s + "'"
    case JArr(items) =>
      "[" + Text.Join(seq(|items|, k requires 0 <= k < |items| => Repr(items[k])), ", ") + "]"
    case JObj(members) =>
      var d := Dict(members);
      "{" + Text.Join(seq(|d|, k requires 0 <= k < |d| =>
                            assert d[k] in members;
                            "'" + d[k].0 + "': " + Repr(d[k].1)), ", ") + "}"
  }

  /** `str()` of a value, which `"%s" % v` produces: a string as it is,
      anything else as its repr. An integer renders as its decimal digits,
      so it never holds a space. */
  function Render(j: Json): (r: string)
    ensures j.JStr? ==> r == j.s
    ensures j.JInt? ==> r == Text.IntToString(j.i) && ' ' !in r
    ensures j.JNull? ==> r == "None"
  {
    if j.JStr? then j.s else Repr(j)
  }
}
