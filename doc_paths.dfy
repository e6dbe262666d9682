/** Document paths as `CollectionReference.doc(path)` of the Firestore
    client resolves them: the path must be a non-empty string without "//";
    it is split on "/", empty segments are dropped, and together with the
    collection's own segment the segments must name a document (an even
    count). A path that fails any of these makes `doc()` throw. */
module DocPaths {
  import opened JsValues

  /** `p` contains "//". */
  predicate HasDoubleSlash(p: string) {
    |p| >= 2 && ((p[0] == '/' && p[1] == '/') || HasDoubleSlash(p[1..]))
  }

  /** The number of "/" in `p`. */
  function Slashes(p: string): nat {
    if |p| == 0 then 0 else Slashes(p[..|p| - 1]) + (if p[|p| - 1] == '/' then 1 else 0)
  }

  /** A single id: non-empty and without "/". */
  predicate PlainId(p: string) {
    p != "" && forall i :: 0 <= i < |p| ==> p[i] != '/'
  }

  /** `p` without one leading and one trailing "/". Splitting on "/" and
      dropping empty segments removes exactly these once "//" is refused. */
  function Trimmed(p: string): string {
    var q := if |p| > 0 && p[0] == '/' then p[1..] else p;
    if |q| > 0 && q[|q| - 1] == '/' then q[..|q| - 1] else q
  }

  /** The document `doc(p)` refers to, relative to its collection, or `None`
      when `doc(p)` throws: the segments of `Trimmed(p)`, one more than its
      "/"s, must be odd in number to name a document together with the
      collection's own segment. */
  function DocKey(p: string): Option<string> {
    if p == "" || HasDoubleSlash(p) then None
    else if Trimmed(p) == "" || Slashes(Trimmed(p)) % 2 == 1 then None
    else Some(Trimmed(p))
  }

  /** The position of the last occurrence of `key` in `keys`: the entry
      whose write a document keeps when several entries resolve to it. */
  function LastWith(keys: seq<string>, key: string): (r: Option<nat>)
    ensures r.Some? ==> (r.value < |keys| && keys[r.value] == key
                         && forall j :: r.value < j < |keys| ==> keys[j] != key)
    ensures r.None? ==> key !in keys
  {
    if |keys| == 0 then None
    else if keys[|keys| - 1] == key then Some(|keys| - 1)
    else LastWith(keys[..|keys| - 1], key)
  }

  // ---------------------------------------------------------------------------
  // Properties

  /** `doc(p)` names a document exactly when `p` is a non-empty path without
      "//" whose trimmed form is non-empty with an even number of "/", and the
      document is that trimmed path. */
  lemma DocKeyResolves(p: string)
    ensures DocKey(p).Some? <==> p != "" && !HasDoubleSlash(p) && Trimmed(p) != "" && Slashes(Trimmed(p)) % 2 == 0
    ensures DocKey(p).Some? ==> DocKey(p).value == Trimmed(p) && DocKey(p).value != "" && Slashes(DocKey(p).value) % 2 == 0
  {
  }

  lemma {:induction false} PlainSlashes(p: string)
    requires forall i :: 0 <= i < |p| ==> p[i] != '/'
    ensures Slashes(p) == 0
  {
    if |p| > 0 {
      PlainSlashes(p[..|p| - 1]);
    }
  }

  lemma {:induction false} SlashesAppend(p: string, q: string)
    ensures Slashes(p + q) == Slashes(p) + Slashes(q)
    decreases |q|
  {
    if |q| == 0 {
      assert p + q == p;
    } else {
      assert (p + q)[..|p + q| - 1] == p + q[..|q| - 1];
      SlashesAppend(p, q[..|q| - 1]);
    }
  }

  lemma {:induction false} PlainNoDoubleSlash(a: string)
    requires forall i :: 0 <= i < |a| ==> a[i] != '/'
    ensures !HasDoubleSlash(a)
    decreases |a|
  {
    if |a| > 1 {
      PlainNoDoubleSlash(a[1..]);
    }
  }

  /** A plain id refers to the document of that id. */
  lemma PlainIdKey(p: string)
    requires PlainId(p)
    ensures DocKey(p) == Some(p)
  {
    PlainNoDoubleSlash(p);
    PlainSlashes(p);
  }

  /** "a/b" names a collection inside a document, not a document: `doc()` throws. */
  lemma OneSlashRejected(a: string, b: string)
    requires PlainId(a) && PlainId(b)
    ensures DocKey(a + "/" + b).None?
  {
    var p := a + "/" + b;
    assert Trimmed(p) == p;
    PlainSlashes(a);
    PlainSlashes(b);
    SlashesAppend(a, "/");
    SlashesAppend(a + "/", b);
    assert Slashes("/") == 1 by {
      assert "/"[..0] == "";
    }
  }

  /** A trailing "/" is dropped: "a/" refers to the document "a". */
  lemma TrailingSlashDropped(a: string)
    requires PlainId(a)
    ensures DocKey(a + "/") == Some(a)
  {
    var p := a + "/";
    assert Trimmed(p) == a;
    PlainSlashes(a);
    NoDoubleSlashBeforeEnd(a);
  }

  lemma {:induction false} NoDoubleSlashBeforeEnd(a: string)
    requires PlainId(a)
    ensures !HasDoubleSlash(a + "/")
    decreases |a|
  {
    if |a| > 1 {
      assert (a + "/")[1..] == a[1..] + "/";
      NoDoubleSlashBeforeEnd(a[1..]);
    }
  }

  /** The empty path, "/" and a path with "//" are all refused. */
  lemma DegeneratePathsRejected(p: string)
    ensures DocKey("").None?
    ensures DocKey("/").None?
    ensures HasDoubleSlash(p) ==> DocKey(p).None?
  {
    assert Trimmed("/") == "";
  }
}
