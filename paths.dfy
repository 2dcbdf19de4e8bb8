/**
 * Path handling of the content routes: the canonicalisation applied by upload
 * and create-folder, the "ROOT/" prefixing applied by delete and stream, and
 * the split of a path into (parent, name) at its last '/'.
 */
module Paths {

  /** The root token every canonical address starts with. */
  const Root: string := "ROOT"

  /** The prefix whose removal makes the single legacy retry of a lookup. */
  const RootSlash: string := "ROOT/"

  /** String.prototype.startsWith. */
  predicate StartsWith(s: string, prefix: string) {
    |prefix| <= |s| && s[..|prefix|] == prefix
  }

  /** String.prototype.endsWith. */
  predicate EndsWith(s: string, suffix: string) {
    |suffix| <= |s| && s[|s| - |suffix|..] == suffix
  }

  // ---------------------------------------------------------------------------
  // Canonicalisation: replace(/^\/+|\/+$/g, '') followed by the ROOT prefix rule
  // ---------------------------------------------------------------------------

  /** Removes the run of '/' at the start of s (the `^\/+` alternative). */
  function TrimLeading(s: string): (r: string)
    ensures |r| <= |s| && r == s[|s| - |r|..]
    ensures forall k :: 0 <= k < |s| - |r| ==> s[k] == '/'
    ensures r == "" || r[0] != '/'
    decreases |s|
  {
    if |s| > 0 && s[0] == '/' then TrimLeading(s[1..]) else s
  }

  /** Removes the run of '/' at the end of s (the `\/+$` alternative). */
  function TrimTrailing(s: string): (r: string)
    ensures |r| <= |s| && r == s[..|r|]
    ensures forall k :: |r| <= k < |s| ==> s[k] == '/'
    ensures r == "" || r[|r| - 1] != '/'
    decreases |s|
  {
    if |s| > 0 && s[|s| - 1] == '/' then TrimTrailing(s[..|s| - 1]) else s
  }

  /** Leading and trailing slashes removed; inner ones are kept. */
  function Strip(s: string): (r: string)
    ensures r == "" || (r[0] != '/' && r[|r| - 1] != '/')
    ensures (s == "" || (s[0] != '/' && s[|s| - 1] != '/')) ==> r == s
  {
    TrimTrailing(TrimLeading(s))
  }

  /**
   * What the replace removes: Strip(s) is the part of s between a leading
   * and a trailing run of slashes.
   */
  lemma {:induction false} StripIsInnerPart(s: string)
    ensures exists i, j :: 0 <= i <= j <= |s| && Strip(s) == s[i..j] &&
              (forall k :: 0 <= k < i ==> s[k] == '/') &&
              (forall k :: j <= k < |s| ==> s[k] == '/')
  {
    var t := TrimLeading(s);
    var r := TrimTrailing(t);
    var i := |s| - |t|;
    var j := i + |r|;
    assert Strip(s) == r == s[i..j];
    assert forall k :: 0 <= k < i ==> s[k] == '/';
    forall k | j <= k < |s| ensures s[k] == '/' {
      assert s[k] == t[k - i];
    }
    assert 0 <= i <= j <= |s| && Strip(s) == s[i..j];
  }

  /**
   * The canonical form of a client path (content.js lines 87-92 and 146-149):
   * strip the outer slashes, then prefix "ROOT/" unless the result already
   * starts with the characters ROOT; an empty result becomes "ROOT".
   */
  function Clean(s: string): (r: string)
    ensures StartsWith(r, Root)
    ensures r[0] != '/' && r[|r| - 1] != '/'
    ensures StartsWith(Strip(s), Root) ==> r == Strip(s)
  {
    var c := Strip(s);
    if StartsWith(c, Root) then c
    else if c == "" then Root
    else RootSlash + c
  }

  /** The parent address upload stores: `req.body.path || 'ROOT'`, then cleaned. */
  function UploadParent(raw: string): (r: string)
    ensures StartsWith(r, Root) && r[|r| - 1] != '/'
  {
    if raw == "" then Clean(Root) else Clean(raw)
  }

  /** Canonicalising an already canonical address changes nothing. */
  lemma {:induction false} CleanIdempotent(s: string)
    ensures Clean(Clean(s)) == Clean(s)
  {
  }

  /** An input without slashes at either end keeps its characters when it is rooted. */
  lemma {:induction false} CleanKeepsRooted(s: string)
    requires StartsWith(s, Root) && s[|s| - 1] != '/'
    ensures Clean(s) == s
  {
    assert s[0] == Root[0];
  }

  /** A missing or empty upload path, or one made of slashes only, names the root. */
  lemma {:induction false} UploadParentDefault(raw: string)
    requires forall k :: 0 <= k < |raw| ==> raw[k] == '/'
    ensures UploadParent(raw) == Root
  {
    assert TrimLeading(raw) == "";
  }

  /** A path that does not start with ROOT is placed under the root. */
  lemma {:induction false} CleanPrefixesUnrooted(s: string)
    requires Strip(s) != "" && !StartsWith(Strip(s), Root)
    ensures Clean(s) == RootSlash + Strip(s)
    ensures Clean(s)[|RootSlash|..] == Strip(s)
  {
  }

  // ---------------------------------------------------------------------------
  // Request paths of delete and stream, and the split at the last slash
  // ---------------------------------------------------------------------------

  /**
   * The request path of delete and stream (content.js lines 185-186, 240-241):
   * "ROOT/" is prepended unless the raw path starts with ROOT; no slash is
   * stripped.
   */
  function RequestPath(raw: string): (r: string)
    ensures StartsWith(r, Root)
    ensures StartsWith(raw, Root) ==> r == raw
    ensures !StartsWith(raw, Root) ==> StartsWith(r, RootSlash) && r[|RootSlash|..] == raw
  {
    if StartsWith(raw, Root) then raw else RootSlash + raw
  }

  /** String.prototype.lastIndexOf('/'): the index of the last slash, or -1. */
  function LastSlash(s: string): (k: int)
    ensures -1 <= k < |s|
    ensures k >= 0 ==> s[k] == '/'
    ensures forall j :: k < j < |s| ==> s[j] != '/'
    decreases |s|
  {
    if |s| == 0 then -1
    else if s[|s| - 1] == '/' then |s| - 1
    else LastSlash(s[..|s| - 1])
  }

  /** The last slash is the only index with a slash and no slash after it. */
  lemma {:induction false} LastSlashUnique(s: string, k: int)
    requires -1 <= k < |s|
    requires k >= 0 ==> s[k] == '/'
    requires forall j :: k < j < |s| ==> s[j] != '/'
    ensures LastSlash(s) == k
  {
  }

  /**
   * `substring(0, lastSlash)` and `substring(lastSlash + 1)`
   * (content.js lines 188-190, 243-245). With no slash, substring(0, -1)
   * clamps to the empty string and the name is the whole path.
   */
  function SplitAtLastSlash(s: string): (r: (string, string))
    ensures '/' !in r.1
    ensures LastSlash(s) >= 0 ==> r.0 + "/" + r.1 == s
    ensures LastSlash(s) < 0 ==> r.0 == "" && r.1 == s
  {
    var k := LastSlash(s);
    if k < 0 then ("", s) else (s[..k], s[k + 1..])
  }

  /** Joining a parent and a slash-free name with '/' and splitting again gives both back. */
  lemma {:induction false} SplitJoin(parent: string, name: string)
    requires '/' !in name
    ensures SplitAtLastSlash(parent + "/" + name) == (parent, name)
  {
    var s := parent + "/" + name;
    forall j | |parent| < j < |s| ensures s[j] != '/' {
      assert s[j] == name[j - |parent| - 1];
    }
    LastSlashUnique(s, |parent|);
    assert s[..|parent|] == parent;
    assert s[|parent| + 1..] == name;
  }

  // ---------------------------------------------------------------------------
  // create-folder's split('/'), pop() and join('/')
  // ---------------------------------------------------------------------------

  /** String.prototype.split('/'), read character by character. */
  function SplitOn(s: string): (parts: seq<string>)
    ensures |parts| >= 1
    ensures forall i :: 0 <= i < |parts| ==> '/' !in parts[i]
    ensures |parts| == 1 ==> parts[0] == s
    decreases |s|
  {
    if s == "" then [""]
    else
      var rest := SplitOn(s[1..]);
      if s[0] == '/' then [""] + rest else [[s[0]] + rest[0]] + rest[1..]
  }

  /** Array.prototype.join('/'); the empty array joins to "". */
  function Join(parts: seq<string>): (r: string)
    ensures |parts| >= 1 ==> StartsWith(r, parts[0])
    ensures |parts| >= 2 ==> |r| > |parts[0]| && r[|parts[0]|] == '/'
  {
    if |parts| == 0 then ""
    else if |parts| == 1 then parts[0]
    else parts[0] + "/" + Join(parts[1..])
  }

  /** `parts = s.split('/'); name = parts.pop(); parent = parts.join('/')` (content.js lines 151-153). */
  function SplitPopJoin(s: string): (r: (string, string))
    ensures '/' !in r.1
    ensures LastSlash(s) < 0 ==> r == ("", s)
  {
    SplitOnSingle(s);
    var parts := SplitOn(s);
    (Join(parts[..|parts| - 1]), parts[|parts| - 1])
  }

  /** Splitting yields a single piece exactly when there is no slash. */
  lemma {:induction false} SplitOnSingle(s: string)
    ensures |SplitOn(s)| == 1 <==> LastSlash(s) < 0
    decreases |s|
  {
    if s != "" {
      SplitOnSingle(s[1..]);
      LastSlashCons(s);
    }
  }

  /** How the last slash of s relates to the last slash of its tail. */
  lemma {:induction false} LastSlashCons(s: string)
    requires s != ""
    ensures LastSlash(s[1..]) >= 0 ==> LastSlash(s) == LastSlash(s[1..]) + 1
    ensures LastSlash(s[1..]) < 0 ==> LastSlash(s) == (if s[0] == '/' then 0 else -1)
  {
    var t := s[1..];
    var kt := LastSlash(t);
    if kt >= 0 {
      forall j | kt + 1 < j < |s| ensures s[j] != '/' {
        assert s[j] == t[j - 1];
      }
      LastSlashUnique(s, kt + 1);
    } else {
      forall j | 0 < j < |s| ensures s[j] != '/' {
        assert s[j] == t[j - 1];
      }
      LastSlashUnique(s, if s[0] == '/' then 0 else -1);
    }
  }

  /** Joining the pieces of a split gives the string back. */
  lemma {:induction false} JoinSplitOn(s: string)
    ensures Join(SplitOn(s)) == s
    decreases |s|
  {
    if s != "" {
      var rest := SplitOn(s[1..]);
      JoinSplitOn(s[1..]);
      if s[0] == '/' {
        assert SplitOn(s) == [""] + rest;
        assert ([""] + rest)[1..] == rest;
      } else {
        JoinConsHead(s[0], rest);
      }
      assert s == [s[0]] + s[1..];
    }
  }

  /** Prefixing the first piece prefixes the join. */
  lemma {:induction false} JoinConsHead(c: char, parts: seq<string>)
    requires |parts| >= 1
    ensures Join([[c] + parts[0]] + parts[1..]) == [c] + Join(parts)
  {
    if |parts| == 1 {
      assert [[c] + parts[0]] + parts[1..] == [[c] + parts[0]];
    } else {
      var rest := Join(parts[1..]);
      JoinCons([c] + parts[0], parts[1..]);
      JoinCons(parts[0], parts[1..]);
      assert parts == [parts[0]] + parts[1..];
      assert ([c] + parts[0]) + "/" + rest == [c] + (parts[0] + "/" + rest);
    }
  }

  /** A piece in front of a non-empty list is joined to it with one '/'. */
  lemma {:induction false} JoinCons(head: string, tail: seq<string>)
    requires tail != []
    ensures Join([head] + tail) == head + "/" + Join(tail)
  {
    assert ([head] + tail)[1..] == tail;
  }



  /** How split/pop/join of s relates to that of its tail, when the tail holds a slash. */
  lemma {:induction false} SplitPopJoinCons(s: string)
    requires s != "" && |SplitOn(s[1..])| >= 2
    ensures var (p, n) := SplitPopJoin(s[1..]);
            SplitPopJoin(s) == ([s[0]] + p, n)
  {
    var rest := SplitOn(s[1..]);
    var parts := SplitOn(s);
    var init := rest[..|rest| - 1];
    if s[0] == '/' {
      assert parts == [""] + rest;
      assert parts[..|parts| - 1] == [""] + init;
      assert |init| >= 1 && ([""] + init)[1..] == init;
      assert Join([""] + init) == "" + "/" + Join(init) == [s[0]] + Join(init);
    } else {
      assert parts == [[s[0]] + rest[0]] + rest[1..];
      assert parts[..|parts| - 1] == [[s[0]] + init[0]] + init[1..];
      JoinConsHead(s[0], init);
    }
  }

  /** The step of SplitPopJoinIsLastSlash when the tail of s holds a slash. */
  lemma {:induction false} SplitPopJoinTailSlash(s: string)
    requires s != "" && LastSlash(s[1..]) >= 0
    requires SplitPopJoin(s[1..]) == SplitAtLastSlash(s[1..])
    ensures SplitPopJoin(s) == SplitAtLastSlash(s)
  {
    var t := s[1..];
    var kt := LastSlash(t);
    SplitOnSingle(t);
    SplitPopJoinCons(s);
    LastSlashCons(s);
    assert SplitAtLastSlash(t) == (t[..kt], t[kt + 1..]);
    assert SplitPopJoin(s) == ([s[0]] + t[..kt], t[kt + 1..]);
    assert SplitAtLastSlash(s) == (s[..kt + 1], s[kt + 2..]);
    assert s[..kt + 1] == [s[0]] + t[..kt];
    assert s[kt + 2..] == t[kt + 1..];
  }

  /** The step of SplitPopJoinIsLastSlash when the tail of s holds no slash. */
  lemma {:induction false} SplitPopJoinTailPlain(s: string)
    requires s != "" && LastSlash(s[1..]) < 0
    ensures SplitPopJoin(s) == SplitAtLastSlash(s)
  {
    var t := s[1..];
    SplitOnSingle(t);
    LastSlashCons(s);
    var rest := SplitOn(t);
    assert |rest| == 1;
    JoinSplitOn(t);
    assert rest[0] == t;
    if s[0] == '/' {
      assert SplitOn(s) == [""] + rest;
    } else {
      assert SplitOn(s) == [[s[0]] + rest[0]];
      assert s == [s[0]] + t;
    }
  }

  /**
   * create-folder's split/pop/join and the lastIndexOf/substring of delete and
   * stream cut a path at the same place.
   */
  lemma {:induction false} SplitPopJoinIsLastSlash(s: string)
    ensures SplitPopJoin(s) == SplitAtLastSlash(s)
    decreases |s|
  {
    if s != "" {
      if LastSlash(s[1..]) >= 0 {
        SplitPopJoinIsLastSlash(s[1..]);
        SplitPopJoinTailSlash(s);
      } else {
        SplitPopJoinTailPlain(s);
      }
    }
  }

  /**
   * The folder name create-folder extracts from a non-empty path is never
   * empty, so its "Invalid folder name" reply cannot be produced.
   */
  lemma {:induction false} FolderNameNeverEmpty(raw: string)
    ensures SplitPopJoin(Clean(raw)).1 != ""
  {
    var c := Clean(raw);
    SplitPopJoinIsLastSlash(c);
  }

  /** A parent that create-folder extracts is either empty or starts with ROOT. */
  lemma {:induction false} FolderParentRooted(raw: string)
    ensures var (p, n) := SplitPopJoin(Clean(raw));
            (p == "" <==> LastSlash(Clean(raw)) < 0) &&
            (p != "" ==> StartsWith(p, Root) && p + "/" + n == Clean(raw))
  {
    var c := Clean(raw);
    SplitPopJoinIsLastSlash(c);
    var k := LastSlash(c);
    if k >= 0 {
      assert c[..4] == Root;
      assert forall j | 0 <= j < 4 :: c[j] == Root[j];
      assert k >= 4;
      assert c[..k][..4] == Root;
    }
  }

  // ---------------------------------------------------------------------------
  // The legacy fallback and the content type of stream
  // ---------------------------------------------------------------------------

  /** `replace(/^ROOT\//, '')`: the parent with its leading "ROOT/" removed once. */
  function LegacyParent(parent: string): (r: string)
    requires StartsWith(parent, RootSlash)
    ensures RootSlash + r == parent
  {
    parent[|RootSlash|..]
  }

  /** toLowerCase on the ASCII letters. */
  function LowerChar(c: char): (d: char)
    ensures 'A' <= c <= 'Z' ==> 'a' <= d <= 'z'
    ensures !('A' <= c <= 'Z') ==> d == c
  {
    if 'A' <= c <= 'Z' then (c as int + 32) as char else c
  }

  function ToLower(s: string): (r: string)
    ensures |r| == |s|
  {
    seq(|s|, i requires 0 <= i < |s| => LowerChar(s[i]))
  }

  /** `pathStr.toLowerCase().endsWith('.pdf')` (content.js line 270). */
  predicate IsPdfPath(s: string)
    ensures IsPdfPath(s) <==>
              |s| >= 4 && forall k :: 0 <= k < 4 ==> LowerChar(s[|s| - 4 + k]) == ".pdf"[k]
  {
    var t := ToLower(s);
    assert |t| >= 4 ==> (t[|t| - 4..] == ".pdf" <==> forall k :: 0 <= k < 4 ==> t[|t| - 4 + k] == ".pdf"[k]);
    EndsWith(t, ".pdf")
  }

  /** The test looks at the last four characters only, whatever their case. */
  lemma {:induction false} PdfCaseInsensitive(s: string)
    ensures IsPdfPath(s + ".pdf") && IsPdfPath(s + ".PDF") && IsPdfPath(s + ".Pdf")
    ensures !IsPdfPath(s + ".txt")
  {
    var t := ToLower(s + ".PDF");
    assert t[|t| - 4..] == ".pdf";
    var u := ToLower(s + ".pdf");
    assert u[|u| - 4..] == ".pdf";
    var v := ToLower(s + ".Pdf");
    assert v[|v| - 4..] == ".pdf";
    var w := ToLower(s + ".txt");
    assert w[|w| - 1] == 't';
  }
}
