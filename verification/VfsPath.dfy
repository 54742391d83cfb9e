/**
  Path names of freestanding/kvfs.c: the in-place clean-up of sanitize_path, the canonical paths it yields, and
  when two spellings name one file.
 */
module VfsPath {
  import opened Common

  const MAX_PATH: nat := 128

  // ---- the function ---------------------------------------------------------------------------------

  /** The copying loop from a partly written output on. */
  function Copy(inp: string, out: string): string
    decreases |inp|
  {
    if inp == "" || |out| >= MAX_PATH - 1 then out
    else if inp[0] == '/' && out != "" && out[|out| - 1] == '/' then Copy(inp[1..], out)
    else Copy(inp[1..], out + [inp[0]])
  }

  function Strip(out: string): string {
    if |out| > 1 && out[|out| - 1] == '/' then Strip(out[..|out| - 1]) else out
  }

  /** sanitize_path; no path stands for the null pointer. */
  function Sanitize(path: Option<string>): string {
    if path.None? || path.value == "" then "/"
    else Strip(Copy(path.value, if path.value[0] != '/' then "/" else ""))
  }

  // ---- components -------------------------------------------------------------------------------------

  /** The non-empty stretches between slashes, the first one continuing cur. */
  function Components(s: string, cur: string): seq<string>
    decreases |s|
  {
    var now := if cur == "" then [] else [cur];
    if s == "" then now
    else if s[0] == '/' then now + Components(s[1..], "")
    else Components(s[1..], cur + [s[0]])
  }

  function Names(path: Option<string>): seq<string> { if path.None? then [] else Components(path.value, "") }

  predicate Name(c: string) { c != "" && '/' !in c }

  predicate AllNames(cs: seq<string>) { forall i :: 0 <= i < |cs| ==> Name(cs[i]) }

  /** Every name after a slash. */
  function Body(cs: seq<string>): string { if cs == [] then "" else Body(cs[..|cs| - 1]) + "/" + cs[|cs| - 1] }

  /** The absolute path with those components. */
  function Full(cs: seq<string>): string { if cs == [] then "/" else Body(cs) }

  function Cut(s: string): (r: string)
    ensures |r| <= MAX_PATH - 1
  {
    if |s| <= MAX_PATH - 1 then s else s[..MAX_PATH - 1]
  }

  /** The copying loop without its limit. */
  function CopyAll(inp: string, out: string): (r: string)
    ensures |out| <= |r| && r[..|out|] == out
    decreases |inp|
  {
    if inp == "" then out
    else if inp[0] == '/' && out != "" && out[|out| - 1] == '/' then CopyAll(inp[1..], out)
    else CopyAll(inp[1..], out + [inp[0]])
  }

  lemma {:induction false} CopyCuts(inp: string, out: string)
    requires |out| <= MAX_PATH - 1
    ensures Copy(inp, out) == Cut(CopyAll(inp, out))
    decreases |inp|
  {
    if inp != "" && |out| < MAX_PATH - 1 {
      if inp[0] == '/' && out != "" && out[|out| - 1] == '/' {
        CopyCuts(inp[1..], out);
      } else {
        CopyCuts(inp[1..], out + [inp[0]]);
      }
    }
  }

  lemma BodySnoc(ds: seq<string>, c: string)
    ensures Body(ds + [c]) == Body(ds) + "/" + c
  {
    assert (ds + [c])[..|ds|] == ds;
  }

  /** The copy of a text, after the components ds and the begun one cur, is all components with single slashes. */
  ghost predicate Copies(inp: string, ds: seq<string>, cur: string) {
    var cs := ds + Components(inp, cur);
    var r := CopyAll(inp, Body(ds) + "/" + cur);
    AllNames(cs) && (r == Full(cs) || r == Full(cs) + "/")
  }

  lemma SlashAgain(inp: string, ds: seq<string>)
    requires inp != "" && inp[0] == '/' && Copies(inp[1..], ds, "")
    ensures Copies(inp, ds, "")
  {
    var out := Body(ds) + "/" + "";
    assert out[|out| - 1] == '/';
    assert [] + Components(inp[1..], "") == Components(inp[1..], "");
    assert Components(inp, "") == Components(inp[1..], "");
    assert CopyAll(inp, out) == CopyAll(inp[1..], out);
  }

  lemma SlashEnds(inp: string, ds: seq<string>, cur: string)
    requires inp != "" && inp[0] == '/' && AllNames(ds) && '/' !in cur && cur != "" && Copies(inp[1..], ds + [cur], "")
    ensures Copies(inp, ds, cur)
  {
    var out := Body(ds) + "/" + cur;
    BodySnoc(ds, cur);
    assert out[|out| - 1] == cur[|cur| - 1];
    assert out + ['/'] == Body(ds + [cur]) + "/" + "";
    assert ds + ([cur] + Components(inp[1..], "")) == ds + [cur] + Components(inp[1..], "");
  }

  lemma LetterJoins(inp: string, ds: seq<string>, cur: string)
    requires inp != "" && inp[0] != '/' && Copies(inp[1..], ds, cur + [inp[0]])
    ensures Copies(inp, ds, cur)
  {
    assert Body(ds) + "/" + cur + [inp[0]] == Body(ds) + "/" + (cur + [inp[0]]);
  }

  lemma CopyEnds(ds: seq<string>, cur: string)
    requires AllNames(ds) && '/' !in cur
    ensures Copies("", ds, cur)
  {
    BodySnoc(ds, cur);
    if cur == "" { assert ds + [] == ds; }
  }

  lemma {:induction false} CopyIsBody(inp: string, ds: seq<string>, cur: string)
    requires AllNames(ds) && '/' !in cur
    ensures Copies(inp, ds, cur)
    decreases |inp|
  {
    hide Copies;
    if inp == "" {
      CopyEnds(ds, cur);
    } else if inp[0] == '/' && cur == "" {
      CopyIsBody(inp[1..], ds, "");
      SlashAgain(inp, ds);
    } else if inp[0] == '/' {
      CopyIsBody(inp[1..], ds + [cur], "");
      SlashEnds(inp, ds, cur);
    } else {
      CopyIsBody(inp[1..], ds, cur + [inp[0]]);
      LetterJoins(inp, ds, cur);
    }
  }

  /** The shape of stored paths. */
  predicate Canonical(p: string) {
    && 1 <= |p| <= MAX_PATH - 1 && p[0] == '/'
    && (forall i, j :: 0 <= i && j == i + 1 < |p| ==> !(p[i] == '/' && p[j] == '/'))
    && (|p| > 1 ==> p[|p| - 1] != '/')
  }

  /** A cleaned path is determined by the components of what was given: any spelling leads to the same file. */
  lemma SanitizeIs(path: Option<string>)
    ensures AllNames(Names(path)) && Sanitize(path) == Strip(Cut(Full(Names(path))))
  {
    if path.Some? && path.value != "" {
      var s := path.value;
      CopyIsBody(s, [], "");
      assert Body([]) + "/" + "" == "/" && [] + Components(s, "") == Components(s, "");
      if s[0] == '/' {
        SlashFirst(s);
        CopyCuts(s, "");
      } else {
        CopyCuts(s, "/");
      }
      TrailingSlash(Full(Names(path)));
    }
  }

  /** A leading slash is copied to the empty output as the program writes one otherwise. */
  lemma SlashFirst(s: string)
    requires s != "" && s[0] == '/'
    ensures CopyAll(s, "") == CopyAll(s, "/")
  {
    assert "" + [s[0]] == "/";
  }

  lemma TrailingSlash(f: string)
    ensures f != "" ==> Strip(Cut(f + "/")) == Strip(Cut(f))
  {
    if 0 < |f| < MAX_PATH - 1 {
      assert (f + "/")[..|f|] == f && (f + "/")[|f|] == '/';
    } else if |f| >= MAX_PATH - 1 {
      assert (f + "/")[..MAX_PATH - 1] == f[..MAX_PATH - 1];
    }
  }

  // ---- canonical paths ----------------------------------------------------------------------------------

  predicate NoDouble(p: string) { forall i, j :: 0 <= i && j == i + 1 < |p| ==> !(p[i] == '/' && p[j] == '/') }

  lemma StripCanonical(s: string)
    requires 1 <= |s| <= MAX_PATH - 1 && s[0] == '/' && NoDouble(s)
    ensures Canonical(Strip(s))
  {
    if |s| > 1 && s[|s| - 1] == '/' {
      var t := s[..|s| - 1];
      assert s[|s| - 2] != '/' || |s| - 1 != (|s| - 2) + 1;
      assert Strip(t) == t;
    }
  }

  lemma {:induction false} FullClean(cs: seq<string>)
    requires AllNames(cs)
    ensures var f := Full(cs); f != "" && f[0] == '/' && NoDouble(f) && (cs != [] ==> f[|f| - 1] != '/')
    decreases |cs|
  {
    if cs == [] {
    } else {
      var ds, c := cs[..|cs| - 1], cs[|cs| - 1];
      assert Name(c);
      assert c[|c| - 1] != '/';
      if ds != [] { FullClean(ds); }
      assert Full(cs) == Body(ds) + "/" + c;
    }
  }

  /** What is stored is canonical. */
  lemma SanitizeCanonical(path: Option<string>)
    ensures Canonical(Sanitize(path))
  {
    SanitizeIs(path);
    hide Sanitize, Names, Full;
    FullClean(Names(path));
    StripCanonical(Cut(Full(Names(path))));
  }

  lemma {:induction false} CopyClean(inp: string, out: string)
    requires NoDouble(out + inp)
    ensures CopyAll(inp, out) == out + inp
    decreases |inp|
  {
    if inp == "" {
      assert out + inp == out;
    } else {
      assert (out + inp)[|out|] == inp[0];
      if out != "" { assert (out + inp)[|out| - 1] == out[|out| - 1]; }
      assert out + [inp[0]] + inp[1..] == out + inp;
      CopyClean(inp[1..], out + [inp[0]]);
    }
  }

  /** And a canonical path cleans to itself. */
  lemma CanonicalFixed(p: string)
    requires Canonical(p)
    ensures Sanitize(Some(p)) == p
  {
    assert "" + p == p;
    CopyClean(p, "");
    CopyCuts(p, "");
  }

  /** sanitize_path is idempotent. */
  lemma SanitizeIdempotent(path: Option<string>)
    ensures Sanitize(Some(Sanitize(path))) == Sanitize(path)
  {
    SanitizeCanonical(path);
    CanonicalFixed(Sanitize(path));
  }

  // ---- spellings --------------------------------------------------------------------------------------------

  lemma {:induction false} ComponentsJoin(s: string, t: string, cur: string)
    ensures Components(s + "/" + t, cur) == Components(s, cur) + Components(t, "")
    decreases |s|
  {
    if s == "" {
      assert (s + "/" + t)[0] == '/' && (s + "/" + t)[1..] == t;
    } else {
      assert (s + "/" + t)[0] == s[0] && (s + "/" + t)[1..] == s[1..] + "/" + t;
      if s[0] == '/' { ComponentsJoin(s[1..], t, ""); } else { ComponentsJoin(s[1..], t, cur + [s[0]]); }
    }
  }

  lemma {:induction false} ComponentsName(c: string, cur: string)
    requires '/' !in c && cur + c != ""
    ensures Components(c, cur) == [cur + c]
    decreases |c|
  {
    if c == "" {
      assert cur + c == cur;
    } else {
      assert cur + [c[0]] + c[1..] == cur + c;
      ComponentsName(c[1..], cur + [c[0]]);
    }
  }

  lemma {:induction false} ComponentsOfBody(cs: seq<string>)
    requires AllNames(cs)
    ensures Components(Body(cs), "") == cs
    decreases |cs|
  {
    if cs == [] {
    } else {
      var ds, c := cs[..|cs| - 1], cs[|cs| - 1];
      assert Name(c) && "" + c == c;
      ComponentsOfBody(ds);
      ComponentsJoin(Body(ds), c, "");
      ComponentsName(c, "");
      assert ds + [c] == cs;
    }
  }

  lemma ComponentsOfFull(cs: seq<string>)
    requires AllNames(cs)
    ensures Components(Full(cs), "") == cs
  {
    ComponentsOfBody(cs);
    if cs == [] { assert "/"[1..] == ""; assert Components("/", "") == [] + Components("/"[1..], ""); }
  }

  /** Two paths of at most 127 characters clean to one exactly when they have the same components. */
  lemma SameFileIff(x: Option<string>, y: Option<string>)
    requires |Full(Names(x))| <= 127 && |Full(Names(y))| <= 127
    ensures Sanitize(x) == Sanitize(y) <==> Names(x) == Names(y)
  {
    hide Sanitize, Names;
    SanitizeIs(x);
    SanitizeIs(y);
    FullClean(Names(x));
    FullClean(Names(y));
    ComponentsOfFull(Names(x));
    ComponentsOfFull(Names(y));
  }

  /** A text as the program would clean it is the path of its components. */
  predicate Tidy(s: string) { s != "" && s[0] == '/' && NoDouble(s) && (|s| > 1 ==> s[|s| - 1] != '/') }

  lemma TidyIs(s: string)
    requires Tidy(s)
    ensures Full(Names(Some(s))) == s && AllNames(Names(Some(s))) && Sanitize(Some(s)) == Strip(Cut(s))
  {
    SanitizeIs(Some(s));
    CopyIsBody(s, [], "");
    assert Body([]) + "/" + "" == "/" && [] + Components(s, "") == Components(s, "");
    SlashFirst(s);
    assert "" + s == s;
    CopyClean(s, "");
    FullClean(Names(Some(s)));
  }

  lemma FullTidy(path: Option<string>)
    ensures Tidy(Full(Names(path))) && AllNames(Names(path)) && Sanitize(path) == Strip(Cut(Full(Names(path))))
    ensures Components(Full(Names(path)), "") == Names(path)
  {
    SanitizeIs(path);
    FullClean(Names(path));
    ComponentsOfFull(Names(path));
  }

  /** Cleaning keeps the components exactly of paths that come to at most 127 characters. */
  lemma NamesKeptIff(path: Option<string>)
    ensures Names(Some(Sanitize(path))) == Names(path) <==> |Full(Names(path))| <= 127
  {
    FullTidy(path);
    SanitizeCanonical(path);
    TidyIs(Sanitize(path));
    hide Names, Sanitize, Full, Components;
    var f := Full(Names(path));
    if |f| <= MAX_PATH - 1 {
      assert Sanitize(path) == f;
      SameNames(f, path);
    }
  }

  lemma SameNames(f: string, path: Option<string>)
    requires Components(f, "") == Names(path)
    ensures Names(Some(f)) == Names(path)
  {
  }

  /** A path has its file to itself, with no other components leading there, exactly up to 125 characters. */
  lemma OwnFileIff(x: Option<string>)
    ensures (forall y :: Sanitize(y) == Sanitize(x) ==> Names(y) == Names(x)) <==> |Full(Names(x))| <= 125
  {
    if |Full(Names(x))| <= MAX_PATH - 3 {
      forall y | Sanitize(y) == Sanitize(x) ensures Names(y) == Names(x) { ShortAlone(x, y); }
    } else {
      var y := Intruder(x);
    }
  }

  lemma ShortAlone(x: Option<string>, y: Option<string>)
    requires |Full(Names(x))| <= MAX_PATH - 3 && Sanitize(y) == Sanitize(x)
    ensures Names(y) == Names(x)
  {
    FullTidy(x);
    FullTidy(y);
    hide Names, Sanitize, Full, Components;
    var f, g := Full(Names(x)), Full(Names(y));
    assert Strip(f) == f;
    TidyCut(g);
    assert g == f;
  }

  /** A cut takes at most one slash with it. */
  lemma TidyCut(g: string)
    requires Tidy(g)
    ensures |g| <= MAX_PATH - 1 ==> Strip(Cut(g)) == g
    ensures |g| > MAX_PATH - 1 ==> |Strip(Cut(g))| >= MAX_PATH - 2
  {
    if |g| > MAX_PATH - 1 && Cut(g)[MAX_PATH - 2] == '/' {
      assert g[MAX_PATH - 3] != '/' || MAX_PATH - 2 != MAX_PATH - 3 + 1;
      assert Cut(g)[..MAX_PATH - 2][MAX_PATH - 3] == g[MAX_PATH - 3];
    }
  }

  /** Other components that lead to the file of a longer path. */
  lemma Intruder(x: Option<string>) returns (y: Option<string>)
    requires |Full(Names(x))| > MAX_PATH - 3
    ensures Sanitize(y) == Sanitize(x) && Names(y) != Names(x)
  {
    FullTidy(x);
    var f := Full(Names(x));
    if |f| > MAX_PATH - 1 {
      y := Some(Sanitize(x));
      NamesKeptIff(x);
      SanitizeIdempotent(x);
    } else {
      var s := if |f| == MAX_PATH - 1 then f + "x" else f + "/x";
      y := Some(s);
      hide Names, Sanitize, Full, Components, Tidy, Cut, Strip;
      LongerTidy(f);
      TidyIs(s);
    }
  }

  lemma LongerTidy(f: string)
    requires Tidy(f) && MAX_PATH - 3 < |f| <= MAX_PATH - 1
    ensures var s := if |f| == MAX_PATH - 1 then f + "x" else f + "/x";
      Tidy(s) && Strip(Cut(s)) == f == Strip(Cut(f))
  {
    var s := if |f| == MAX_PATH - 1 then f + "x" else f + "/x";
    assert Cut(s) == if |f| == MAX_PATH - 1 then f else f + "/";
    assert |f| < MAX_PATH - 1 ==> (f + "/")[..|f|] == f;
    assert Strip(f) == f;
  }

  /** Two paths of a slash and 128 letters that agree in the first 127 characters, and so share a file. */
  lemma LongNamesShare()
    ensures var stem := seq(127, _ => 'a');
      var x, y := Some("/" + stem + "b"), Some("/" + stem + "c");
      Sanitize(x) == Sanitize(y) && Names(x) != Names(y)
  {
    var stem := seq(127, _ => 'a');
    var s, u := "/" + stem + "b", "/" + stem + "c";
    assert Tidy(s) && Tidy(u) && Cut(s) == Cut(u) && s[128] != u[128];
    hide Tidy, Cut, Full, Names, Sanitize, Strip;
    TidyIs(s);
    TidyIs(u);
  }

  // ---- the code ----------------------------------------------------------------------------------------------

  /** The loops of sanitize_path over an output buffer; out[..j] is the cleaned text. */
  method SanitizePath(path: Option<string>, out: array<char>) returns (j: nat)
    requires out.Length == MAX_PATH && (path.Some? ==> '\0' !in path.value)
    modifies out
    ensures j < MAX_PATH && out[..j] == Sanitize(path) && out[j] == '\0'
  {
    j := 0;
    if path.None? || path.value == "" {
      out[0], out[1] := '/', '\0';
      j := 1;
      assert out[..1] == "/";
      return;
    }
    var inp := path.value;
    hide Copy, Strip, Sanitize;
    SanitizeUnfold(path);
    if inp[0] != '/' { out[j] := '/'; j := j + 1; }
    ghost var first := out[..j];
    var i := 0;
    assert inp[0..] == inp;
    assert first == if inp[0] != '/' then "/" else "";
    while i < |inp| && j < MAX_PATH - 1
      invariant i <= |inp| && j <= MAX_PATH - 1
      invariant Copy(inp[i..], out[..j]) == Copy(inp, first)
    {
      CopyStep(inp, i, out[..j]);
      if inp[i] == '/' && j > 0 && out[j - 1] == '/' {
        i := i + 1;
        continue;
      }
      ghost var was := out[..j];
      out[j] := inp[i];
      j := j + 1;
      assert out[..j] == was + [inp[i]];
      i := i + 1;
    }
    CopyEnd(inp, i, out[..j]);
    while j > 1 && out[j - 1] == '/'
      invariant j <= MAX_PATH - 1 && Strip(out[..j]) == Sanitize(path)
    {
      StripStep(out[..j]);
      assert out[..j][..j - 1] == out[..j - 1];
      j := j - 1;
    }
    StripEnd(out[..j]);
    out[j] := '\0';
  }

  lemma SanitizeUnfold(path: Option<string>)
    requires path.Some? && path.value != ""
    ensures Sanitize(path) == Strip(Copy(path.value, if path.value[0] != '/' then "/" else ""))
  {
  }

  /** One round of the copying loop. */
  lemma CopyStep(inp: string, i: nat, out: string)
    requires i < |inp| && |out| < MAX_PATH - 1
    ensures Copy(inp[i..], out) == if inp[i] == '/' && out != "" && out[|out| - 1] == '/' then Copy(inp[i + 1..], out)
      else Copy(inp[i + 1..], out + [inp[i]])
  {
    assert inp[i..][1..] == inp[i + 1..];
  }

  lemma CopyEnd(inp: string, i: nat, out: string)
    requires i <= |inp| && |out| <= MAX_PATH - 1 && (i == |inp| || |out| == MAX_PATH - 1)
    ensures Copy(inp[i..], out) == out
  {
  }

  lemma StripStep(s: string)
    requires |s| > 1 && s[|s| - 1] == '/'
    ensures Strip(s) == Strip(s[..|s| - 1])
  {
  }

  lemma StripEnd(s: string)
    requires |s| <= 1 || s[|s| - 1] != '/'
    ensures Strip(s) == s
  {
  }
}
