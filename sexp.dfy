/**
  * libgcrypt S-expressions as trees, and the two lookups the engine makes on
  * them: `gcry_sexp_find_token` and `gcry_sexp_nth_data`.
  */
module SExps {
  import opened Bytes

  datatype Option<+T> = None | Some(value: T)

  /** An atom holds raw bytes; a list holds any number of elements. */
  datatype SExp = Atom(data: seq<Byte>) | List(items: seq<SExp>)

  /** A list whose first element is the atom `token`: what a token search stops at. */
  predicate Headed(e: SExp, token: seq<Byte>)
  {
    e.List? && |e.items| > 0 && e.items[0] == Atom(token)
  }

  /**
    * `gcry_sexp_find_token(e, token)`: libgcrypt scans the printed form from
    * left to right and returns the first sub-list, `e` itself included,
    * whose first element is the atom `token`.
    */
  function FindToken(e: SExp, token: seq<Byte>): (r: Option<SExp>)
    ensures r.Some? ==> Headed(r.value, token)
    decreases e, 1
  {
    match e
    case Atom(_) => None
    case List(items) =>
      if Headed(e, token) then Some(e) else FindTokenIn(items, token)
  }

  /** The first match inside the elements of a list, in order. */
  function FindTokenIn(items: seq<SExp>, token: seq<Byte>): (r: Option<SExp>)
    ensures r.Some? ==> Headed(r.value, token)
    decreases items, 0
  {
    if items == [] then None
    else
      match FindToken(items[0], token)
      case Some(l) => Some(l)
      case None => FindTokenIn(items[1..], token)
  }

  /** The nodes of a tree in the order their opening parentheses are printed. */
  function Nodes(e: SExp): seq<SExp>
    decreases e, 1
  {
    match e
    case Atom(_) => [e]
    case List(items) => [e] + NodesIn(items)
  }

  function NodesIn(items: seq<SExp>): seq<SExp>
    decreases items, 0
  {
    if items == [] then [] else Nodes(items[0]) + NodesIn(items[1..])
  }

  /** The first node of a sequence that is headed by `token`. */
  function FirstHeaded(s: seq<SExp>, token: seq<Byte>): (r: Option<SExp>)
    ensures r.Some? ==> r.value in s && Headed(r.value, token)
    ensures r.None? ==> forall i :: 0 <= i < |s| ==> !Headed(s[i], token)
  {
    if s == [] then None
    else if Headed(s[0], token) then Some(s[0])
    else FirstHeaded(s[1..], token)
  }

  /** The node found is the first headed one: it sits at some position `k`,
    * and no node before `k` is headed by the token. */
  lemma {:induction false} FirstHeadedIsFirst(s: seq<SExp>, token: seq<Byte>)
    requires FirstHeaded(s, token).Some?
    ensures exists k :: 0 <= k < |s| && s[k] == FirstHeaded(s, token).value &&
                        forall j :: 0 <= j < k ==> !Headed(s[j], token)
  {
    if Headed(s[0], token) {
      assert s[0] == FirstHeaded(s, token).value;
    } else {
      FirstHeadedIsFirst(s[1..], token);
      var k :| 0 <= k < |s[1..]| && s[1..][k] == FirstHeaded(s[1..], token).value &&
               forall j :: 0 <= j < k ==> !Headed(s[1..][j], token);
      assert s[k + 1] == FirstHeaded(s, token).value;
      forall j | 0 <= j < k + 1 ensures !Headed(s[j], token) {
        if j > 0 {
          assert s[j] == s[1..][j - 1];
        }
      }
    }
  }

  lemma {:induction false} FirstHeadedAppend(a: seq<SExp>, b: seq<SExp>, token: seq<Byte>)
    ensures FirstHeaded(a + b, token) ==
            if FirstHeaded(a, token).Some? then FirstHeaded(a, token) else FirstHeaded(b, token)
  {
    if a == [] {
      assert a + b == b;
    } else {
      assert (a + b)[0] == a[0];
      assert (a + b)[1..] == a[1..] + b;
      FirstHeadedAppend(a[1..], b, token);
    }
  }

  /** The search returns the first node, in printing order, that is headed by
    * the token; it returns nothing exactly when no node is. */
  lemma {:induction false} FindTokenIsFirstNode(e: SExp, token: seq<Byte>)
    ensures FindToken(e, token) == FirstHeaded(Nodes(e), token)
    decreases e, 1
  {
    match e
    case Atom(_) =>
      assert Nodes(e) == [e];
    case List(items) =>
      FindTokenInIsFirstNode(items, token);
      assert Nodes(e) == [e] + NodesIn(items);
      assert Nodes(e)[0] == e && Nodes(e)[1..] == NodesIn(items);
  }

  lemma {:induction false} FindTokenInIsFirstNode(items: seq<SExp>, token: seq<Byte>)
    ensures FindTokenIn(items, token) == FirstHeaded(NodesIn(items), token)
    decreases items, 0
  {
    if items != [] {
      FindTokenIsFirstNode(items[0], token);
      FindTokenInIsFirstNode(items[1..], token);
      FirstHeadedAppend(Nodes(items[0]), NodesIn(items[1..]), token);
    }
  }

  /** `gcry_sexp_nth_data(e, n)`: the bytes of element `n` of a list when that
    * element is an atom; nothing when it is a list or there is no such element. */
  function NthData(e: SExp, n: nat): (r: Option<seq<Byte>>)
    ensures r.Some? <==> e.List? && n < |e.items| && e.items[n].Atom?
    ensures r.Some? ==> r.value == e.items[n].data
  {
    if e.List? && n < |e.items| && e.items[n].Atom? then Some(e.items[n].data) else None
  }
}
