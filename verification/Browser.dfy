/** The paths of the file browser in mount_window.cpp. */
module Browser {
  import opened CString

  /** The longest path goInto will leave, and the buffer that holds it. */
  const LONGEST: nat := 126
  const PATH_BUF: nat := 128

  /** Where the browser stands: at the mount list, or in a directory of the mount whose path is root. */
  datatype Place = Place(path: string, root: string, atMounts: bool)

  datatype Event = Enter(mount: string) | Into(name: string) | Up

  function RootOf(mount: string): string { if mount == "" then "/" else mount }

  predicate Refused(path: string, name: string) { |path| + 1 + |name| >= 127 }

  function Push(path: string, name: string): string {
    if |path| == 1 then path + name else path + "/" + name
  }

  /** The last slash at or before i, 0 if there is none. */
  function LastSlash(path: string, i: nat): (k: nat)
    requires i < |path|
    ensures k <= i && (k > 0 ==> path[k] == '/') && forall j :: k < j <= i ==> path[j] != '/'
  {
    if i == 0 || path[i] == '/' then i else LastSlash(path, i - 1)
  }

  /** The path without its last component, never empty. */
  function Strip(path: string): string
    requires path != ""
  {
    var i := LastSlash(path, |path| - 1);
    if i == 0 then path[..1] else path[..i]
  }

  /** The mount list takes only Enter, a directory only Into and Up. */
  function Handle(p: Place, e: Event): Place
    requires p.path != "" || p.atMounts
  {
    match e
    case Enter(m) => if p.atMounts then Place(RootOf(m), RootOf(m), false) else p
    case Into(n) => if p.atMounts || Refused(p.path, n) then p else p.(path := Push(p.path, n))
    case Up =>
      if p.atMounts then p
      else if p.path == p.root then p.(atMounts := true)
      else p.(path := Strip(p.path))
  }

  // ---- one step ------------------------------------------------------------------

  predicate ValidName(n: string) { n != "" && '/' !in n && NUL !in n }

  /** Going up undoes going in exactly when the name brings no slash of its own; a slash right after a one-character
      path is the only one that does no harm. */
  lemma StripUndoesPush(path: string, name: string)
    requires path != "" && name != ""
    ensures Strip(Push(path, name)) == path <==> '/' !in (if |path| == 1 then name[1..] else name)
  {
    var s := Push(path, name);
    var k := LastSlash(s, |s| - 1);
    if |path| == 1 {
      assert s[..1] == path;
      assert forall j :: 2 <= j < |s| ==> s[j] == name[1..][j - 2];
      assert '/' in name[1..] <==> k >= 2;
    } else {
      assert s[..|path|] == path;
      assert s[|path|] == '/' && forall j :: |path| < j < |s| ==> s[j] == name[j - |path| - 1];
      if m :| 0 <= m < |name| && name[m] == '/' {
        assert s[|path| + 1 + m] == '/';
      }
      assert '/' in name <==> k > |path|;
    }
  }

  // ---- the component stack ---------------------------------------------------------

  datatype Stack = Stack(root: string, comps: seq<string>, atMounts: bool)

  function Join(root: string, comps: seq<string>): string {
    if comps == [] then root else Push(Join(root, comps[..|comps| - 1]), comps[|comps| - 1])
  }

  function Render(s: Stack): Place { Place(Join(s.root, s.comps), s.root, s.atMounts) }

  /** The same events on a stack: Into pushes unless the path would grow too long, Up pops, or leaves at the bottom. */
  function StackStep(s: Stack, e: Event): Stack {
    match e
    case Enter(m) => if s.atMounts then Stack(RootOf(m), [], false) else s
    case Into(n) => if s.atMounts || |Join(s.root, s.comps)| + 1 + |n| > LONGEST then s else s.(comps := s.comps + [n])
    case Up =>
      if s.atMounts then s
      else if s.comps == [] then s.(atMounts := true)
      else s.(comps := s.comps[..|s.comps| - 1])
  }

  predicate ValidEvent(e: Event) {
    match e
    case Enter(m) => |m| <= 32 && NUL !in m
    case Into(n) => ValidName(n) && |n| <= 32
    case Up => true
  }

  ghost predicate StackOk(s: Stack) {
    && (s.root != "" || (s.atMounts && s.comps == [])) && |s.root| <= 32 && NUL !in s.root
    && (forall i :: 0 <= i < |s.comps| ==> ValidName(s.comps[i]))
    && |Join(s.root, s.comps)| <= LONGEST
  }

  /** A path under root is root itself only for the empty stack, and always begins with root. */
  lemma {:induction false} JoinExtends(root: string, comps: seq<string>)
    requires root != "" && forall i :: 0 <= i < |comps| ==> ValidName(comps[i])
    ensures root <= Join(root, comps) && (Join(root, comps) == root <==> comps == [])
    ensures NUL !in root ==> NUL !in Join(root, comps)
    decreases |comps|
  {
    if comps != [] {
      JoinExtends(root, comps[..|comps| - 1]);
      assert ValidName(comps[|comps| - 1]);
    }
  }

  lemma PopsLast(root: string, comps: seq<string>)
    requires root != "" && comps != [] && forall i :: 0 <= i < |comps| ==> ValidName(comps[i])
    ensures Join(root, comps) != ""
    ensures Strip(Join(root, comps)) == Join(root, comps[..|comps| - 1])
  {
    JoinExtends(root, comps[..|comps| - 1]);
    var n := comps[|comps| - 1];
    assert ValidName(n);
    StripUndoesPush(Join(root, comps[..|comps| - 1]), n);
  }

  lemma {:induction false} PathIdentifiesStack(root: string, a: seq<string>, b: seq<string>)
    requires root != "" && Join(root, a) == Join(root, b)
    requires forall i :: 0 <= i < |a| ==> ValidName(a[i])
    requires forall i :: 0 <= i < |b| ==> ValidName(b[i])
    ensures a == b
    decreases |a|
  {
    JoinExtends(root, a);
    JoinExtends(root, b);
    if a != [] {
      PopsLast(root, a);
      PopsLast(root, b);
      var a', b' := a[..|a| - 1], b[..|b| - 1];
      PathIdentifiesStack(root, a', b');
      var p := Join(root, a');
      var k := if |p| == 1 then 1 else |p| + 1;
      assert a[|a| - 1] == Join(root, a)[k..] && b[|b| - 1] == Join(root, b)[k..];
      assert a == a' + [a[|a| - 1]] && b == b' + [b[|b| - 1]];
    }
  }

  function Slashed(comps: seq<string>): string {
    if comps == [] then "" else Slashed(comps[..|comps| - 1]) + "/" + comps[|comps| - 1]
  }

  /** The path spelled out: every component behind a slash, but no second slash behind a one-character root. */
  lemma {:induction false} PathSpelled(root: string, comps: seq<string>)
    requires root != "" && comps != [] && forall i :: 0 <= i < |comps| ==> ValidName(comps[i])
    ensures Slashed(comps) != "" && |Join(root, comps)| > 1
    ensures Join(root, comps) == root + if |root| == 1 then Slashed(comps)[1..] else Slashed(comps)
    decreases |comps|
  {
    var init, last := comps[..|comps| - 1], comps[|comps| - 1];
    assert ValidName(last);
    if init != [] {
      PathSpelled(root, init);
      assert Slashed(comps)[1..] == Slashed(init)[1..] + "/" + last;
    } else {
      assert Slashed([]) == "" && Slashed(comps) == "" + "/" + last;
      assert Slashed(comps)[1..] == last;
    }
  }

  /** One event on the path does what it does on the stack. */
  lemma StepRefines(s: Stack, e: Event)
    requires StackOk(s) && ValidEvent(e)
    ensures StackOk(StackStep(s, e))
    ensures (Render(s).path != "" || s.atMounts) && Handle(Render(s), e) == Render(StackStep(s, e))
  {
    if s.root != "" {
      JoinExtends(s.root, s.comps);
    }
    match e
    case Enter(m) =>
    case Into(n) =>
      var t := s.comps + [n];
      assert t[..|t| - 1] == s.comps;
    case Up =>
      if !s.atMounts && s.comps != [] {
        PopsLast(s.root, s.comps);
        PopShortens(s.root, s.comps);
      }
  }

  lemma PopShortens(root: string, comps: seq<string>)
    requires comps != []
    ensures |Join(root, comps[..|comps| - 1])| <= |Join(root, comps)|
  {
  }

  function RunStack(s: Stack, es: seq<Event>): Stack
    decreases |es|
  {
    if es == [] then s else RunStack(StackStep(s, es[0]), es[1..])
  }

  /** The path machine over a whole run; stuck only on an empty path, which RunRefines excludes. */
  function Run(p: Place, es: seq<Event>): Place
    decreases |es|
  {
    if es == [] || !(p.path != "" || p.atMounts) then p else Run(Handle(p, es[0]), es[1..])
  }

  lemma {:induction false} RunRefines(s: Stack, es: seq<Event>)
    requires StackOk(s) && forall i :: 0 <= i < |es| ==> ValidEvent(es[i])
    ensures StackOk(RunStack(s, es)) && Run(Render(s), es) == Render(RunStack(s, es))
    decreases |es|
  {
    if es != [] {
      StepRefines(s, es[0]);
      RunRefines(StackStep(s, es[0]), es[1..]);
    }
  }

  /** From the start, whatever the user does: the path is the mount root joined with the component stack, is at most
      126 characters long, and never rises above the root. */
  lemma EveryPath(es: seq<Event>)
    requires forall i :: 0 <= i < |es| ==> ValidEvent(es[i])
    ensures var p := Run(Place("", "", true), es);
            var s := RunStack(Stack("", [], true), es);
            && p.path == Join(s.root, s.comps) && p.root == s.root && p.atMounts == s.atMounts
            && |p.path| <= LONGEST && p.root <= p.path && NUL !in p.path
            && (p.path == p.root <==> s.comps == [])
  {
    RunRefines(Stack("", [], true), es);
    var s := RunStack(Stack("", [], true), es);
    if s.root != "" {
      JoinExtends(s.root, s.comps);
    }
  }

  // ---- the code ----------------------------------------------------------------------

  datatype Mount = Mount(path: string, path_len: nat)

  datatype Entry = Entry(name: string, name_len: nat, is_dir: bool)

  function Clip(len: nat): nat { if len < 32 then len else 32 }

  /** The bytes of a kernel record's string field that are used. */
  function Field(bytes: string, len: nat): (r: string)
    ensures len <= 32 && len <= |bytes| ==> r == bytes[..len]
    ensures len > 32 && 32 <= |bytes| ==> r == bytes[..32]
  {
    if Clip(len) <= |bytes| then bytes[..Clip(len)] else bytes
  }

  predicate FieldOk(bytes: string, len: nat) { Clip(len) <= |bytes| && NUL !in Field(bytes, len) }

  /** A string comparison that stops at the first difference or NUL. */
  method Streq(a: array<char>, b: array<char>, ghost s: string, ghost t: string) returns (eq: bool)
    requires Holds(a, |s|, s) && Holds(b, |t|, t)
    ensures eq <==> s == t
  {
    BufferAt(a, s);
    BufferAt(b, t);
    var i := 0;
    while a[i] != NUL && b[i] != NUL && a[i] == b[i]
      invariant i <= |s| && i <= |t| && s[..i] == t[..i]
      decreases |s| - i
    {
      i := i + 1;
    }
    eq := a[i] == NUL && b[i] == NUL;
    if eq {
      assert s[..i] == s && t[..i] == t;
    }
  }

  class MountWindow {
    const currentPath: array<char>
    const mountRoot: array<char>
    var atMounts: bool
    var sel: int
    var scrollTop: int
    var mounts: seq<Mount>
    var entries: seq<Entry>
    ghost var place: Place

    ghost predicate Buffers()
      reads this
    {
      currentPath.Length == PATH_BUF && mountRoot.Length == 33 && currentPath != mountRoot
    }

    /** The buffers hold `place`, which is reachable only with a path of at most 126 characters. */
    ghost predicate Valid()
      reads this, currentPath, mountRoot
    {
      && Buffers() && place.atMounts == atMounts
      && Holds(currentPath, |place.path|, place.path) && |place.path| <= LONGEST
      && Holds(mountRoot, |place.root|, place.root) && (place.path != "" || place.atMounts)
    }

    constructor ()
      ensures Valid() && place == Place("", "", true) && fresh(currentPath) && fresh(mountRoot)
    {
      currentPath := new char[PATH_BUF];
      mountRoot := new char[33];
      atMounts, sel, scrollTop, mounts, entries := true, 0, 0, [], [];
      place := Place("", "", true);
      new;
      currentPath[0] := NUL;
      mountRoot[0] := NUL;
    }

    method EnterMount(mi: int)
      requires Valid() && atMounts && forall m :: m in mounts ==> FieldOk(m.path, m.path_len)
      modifies this`atMounts, this`sel, this`scrollTop, this`place, currentPath, mountRoot
      ensures Valid()
      ensures place == if 0 <= mi < |mounts| then Handle(old(place), Enter(Field(mounts[mi].path, mounts[mi].path_len)))
                       else old(place)
      ensures 0 <= mi < |mounts| ==> sel == 0 && scrollTop == 0
      ensures 0 <= mi < |mounts| ==>
        var shown := Field(mounts[mi].path, mounts[mi].path_len);
        place == if shown == "" then Place("/", "/", false) else Place(shown, shown, false)
    {
      if mi < 0 || mi >= |mounts| {
        return;
      }
      var nl := if mounts[mi].path_len < 32 then mounts[mi].path_len else 32;
      assert FieldOk(mounts[mi].path, mounts[mi].path_len);
      CopyMount(mounts[mi].path[..nl]);
      place := Handle(place, Enter(mounts[mi].path[..nl]));
      atMounts := false;
      sel := 0;
      scrollTop := 0;
    }

    /** The mount's path, or "/" for an empty one, into both buffers. */
    method CopyMount(path: string)
      requires Buffers() && |path| <= 32 && NUL !in path
      modifies currentPath, mountRoot
      ensures Holds(currentPath, |RootOf(path)|, RootOf(path)) && Holds(mountRoot, |RootOf(path)|, RootOf(path))
    {
      var nl := |path|;
      var i := 0;
      while i < nl
        invariant i <= nl
        invariant currentPath[..i] == path[..i] && mountRoot[..i] == path[..i]
      {
        mountRoot[i] := path[i];
        currentPath[i] := path[i];
        i := i + 1;
      }
      currentPath[nl] := NUL;
      mountRoot[nl] := NUL;
      if nl == 0 {
        SetSlash(currentPath);
        SetSlash(mountRoot);
      }
    }

    method GoUp()
      requires Valid() && !atMounts
      modifies this`atMounts, this`sel, this`scrollTop, this`place, currentPath
      ensures Valid() && place == Handle(old(place), Up) && sel == 0 && scrollTop == 0
    {
      var same := Streq(currentPath, mountRoot, place.path, place.root);
      place := Handle(place, Up);
      sel := 0;
      scrollTop := 0;
      if same {
        atMounts := true;
        return;
      }
      StripLast(currentPath, old(place.path));
    }

    method GoInto(ei: int)
      requires Valid() && !atMounts && forall e :: e in entries ==> FieldOk(e.name, e.name_len)
      modifies this`sel, this`scrollTop, this`place, currentPath
      ensures Valid()
      ensures place == if 0 <= ei < |entries| && entries[ei].is_dir
                       then Handle(old(place), Into(Field(entries[ei].name, entries[ei].name_len)))
                       else old(place)
      ensures place != old(place) ==> sel == 0 && scrollTop == 0
      ensures 0 <= ei < |entries| && entries[ei].is_dir ==>
        var path, name := old(place.path), Field(entries[ei].name, entries[ei].name_len);
        place.path == if |path| + 1 + |name| > 126 then path else if |path| == 1 then path + name else path + "/" + name
    {
      if ei < 0 || ei >= |entries| || !entries[ei].is_dir {
        return;
      }
      assert FieldOk(entries[ei].name, entries[ei].name_len);
      var cl := Strlen(currentPath, place.path);
      var nl := if entries[ei].name_len < 32 then entries[ei].name_len else 32;
      if cl + 1 + nl >= 127 {
        return;
      }
      Append(currentPath, cl, entries[ei].name[..nl], place.path);
      place := Handle(place, Into(entries[ei].name[..nl]));
      sel := 0;
      scrollTop := 0;
    }
  }

  method SetSlash(buf: array<char>)
    requires buf.Length >= 2
    modifies buf
    ensures Holds(buf, 1, "/")
  {
    buf[0] := '/';
    buf[1] := NUL;
    assert buf[..1] == "/";
  }

  /** goUp's scan for the last slash. */
  method StripLast(buf: array<char>, ghost path: string)
    requires Holds(buf, |path|, path) && path != ""
    modifies buf
    ensures Holds(buf, |Strip(path)|, Strip(path))
  {
    BufferAt(buf, path);
    var len := Strlen(buf, path);
    var i := len - 1;
    while i > 0 && buf[i] != '/'
      invariant 0 <= i < len && LastSlash(path, i) == LastSlash(path, len - 1)
      invariant buf[..] == old(buf[..])
    {
      i := i - 1;
    }
    assert i == LastSlash(path, len - 1);
    if i == 0 {
      buf[1] := NUL;
      assert buf[..1] == path[..1];
    } else {
      buf[i] := NUL;
      assert buf[..i] == path[..i];
    }
  }

  /** goInto's two ways to append a name. */
  method Append(buf: array<char>, cl: nat, name: string, ghost path: string)
    requires cl == |path| && Holds(buf, cl, path) && cl + 1 + |name| < buf.Length && NUL !in name
    modifies buf
    ensures Holds(buf, |Push(path, name)|, Push(path, name))
  {
    if cl == 1 {
      CopyTail(buf, 1, name);
    } else {
      buf[cl] := '/';
      CopyTail(buf, cl + 1, name);
    }
    ghost var at := if cl == 1 then 1 else cl + 1;
    assert buf[..at + |name|] == buf[..at] + buf[at..at + |name|];
    assert buf[..at] == if cl == 1 then path else path + "/";
  }

  method CopyTail(buf: array<char>, at: nat, name: string)
    requires at + |name| < buf.Length
    modifies buf
    ensures buf[..at] == old(buf[..at]) && buf[at..at + |name|] == name && buf[at + |name|] == NUL
  {
    var i := 0;
    while i < |name|
      invariant i <= |name|
      invariant buf[..at] == old(buf[..at]) && buf[at..at + i] == name[..i]
    {
      buf[at + i] := name[i];
      i := i + 1;
    }
    buf[at + |name|] := NUL;
  }
}
