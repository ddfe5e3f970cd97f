/** The zero-terminated property lists of src/structs.c (sections 4.3, 4.4, 5.1 and 5.7 of the OpenCL
    2.2 API specification): encoders from Lua tables to lists, and decoders back. */
module Properties {
  import opened Common

  datatype Result<+T> = Ok(value: T) | NotPresent | Empty | BadValue | Unknown

  // ---------- lists of key-value pairs ----------

  type Pair = (int, int)

  /** The part of a list that precedes the terminator. */
  function Flat(pairs: seq<Pair>): (s: seq<int>)
    ensures |s| == 2 * |pairs|
    ensures forall k :: 0 <= k < |pairs| ==> s[2 * k] == pairs[k].0 && s[2 * k + 1] == pairs[k].1
  {
    if pairs == [] then [] else
    var n := |pairs| - 1;
    Flat(pairs[..n]) + [pairs[n].0, pairs[n].1]
  }

  /** `s` is the list of `pairs`: keys at even positions, none of them 0, then a zero key. What
      follows the terminator is of no interest. */
  ghost predicate ListOf(s: seq<int>, pairs: seq<Pair>) {
    && |s| > 2 * |pairs| && s[..2 * |pairs|] == Flat(pairs) && s[2 * |pairs|] == 0
    && forall p <- pairs :: p.0 != 0
  }

  lemma ListAt(s: seq<int>, pairs: seq<Pair>, k: nat)
    requires ListOf(s, pairs) && k <= |pairs|
    ensures if k == |pairs| then s[2 * k] == 0
            else s[2 * k] == pairs[k].0 != 0 && s[2 * k + 1] == pairs[k].1
  {
    if k < |pairs| {
      assert s[..2 * |pairs|][2 * k] == s[2 * k] && s[..2 * |pairs|][2 * k + 1] == s[2 * k + 1];
      assert pairs[k] in pairs;
    }
  }

  /** The value set last for a key. */
  function Lookup(pairs: seq<Pair>, key: int): Option<int> {
    if pairs == [] then None else
    var n := |pairs| - 1;
    if pairs[n].0 == key then Some(pairs[n].1) else Lookup(pairs[..n], key)
  }

  /** A field of the Lua table: its key, and its value if it is present. */
  type Entry = (int, Option<int>)

  function Pairs(es: seq<Entry>): seq<Pair> {
    if es == [] then [] else
    var n := |es| - 1;
    Pairs(es[..n]) + if es[n].1.Some? then [(es[n].0, es[n].1.value)] else []
  }

  /** The part of a list that a field takes. */
  function Listed(key: int, v: Option<int>): seq<Pair> {
    if v.Some? then [(key, v.value)] else []
  }

  lemma PairsStep(es: seq<Entry>, k: nat)
    requires k < |es|
    ensures Pairs(es[..k + 1]) == Pairs(es[..k]) + Listed(es[k].0, es[k].1)
  {
    assert es[..k + 1][..k] == es[..k];
  }

  ghost predicate DistinctKeys(es: seq<Entry>) {
    && (forall e <- es :: e.0 != 0)
    && forall i, j :: 0 <= i < j < |es| ==> es[i].0 != es[j].0
  }

  lemma {:induction false} PairKeys(es: seq<Entry>)
    ensures forall p <- Pairs(es) :: (p.0, Some(p.1)) in es
  {
    if es != [] {
      PairKeys(es[..|es| - 1]);
    }
  }

  lemma LookupAppend(pairs: seq<Pair>, p: Pair, key: int)
    ensures Lookup(pairs + [p], key) == if p.0 == key then Some(p.1) else Lookup(pairs, key)
  {
    assert (pairs + [p])[..|pairs|] == pairs;
  }

  lemma {:induction false} LookupAbsent(pairs: seq<Pair>, key: int)
    requires forall p <- pairs :: p.0 != key
    ensures Lookup(pairs, key).None?
  {
    if pairs != [] {
      LookupAbsent(pairs[..|pairs| - 1], key);
    }
  }

  /** What is encoded under a key is what is found there. */
  lemma {:induction false} LookupEncoded(es: seq<Entry>, j: nat)
    requires DistinctKeys(es) && j < |es|
    ensures Lookup(Pairs(es), es[j].0) == es[j].1
  {
    var n := |es| - 1;
    LookupLast(es, j);
    if j < n {
      LookupEncoded(es[..n], j);
    } else {
      KeyIsNew(es);
    }
  }

  lemma LookupLast(es: seq<Entry>, j: nat)
    requires DistinctKeys(es) && j < |es|
    ensures var n := |es| - 1;
      Lookup(Pairs(es), es[j].0)
      == if j == n && es[n].1.Some? then es[n].1 else Lookup(Pairs(es[..n]), es[j].0)
  {
    var n := |es| - 1;
    PairsLast(es);
    hide Lookup, Pairs;
    if es[n].1.Some? {
      LookupAppend(Pairs(es[..n]), (es[n].0, es[n].1.value), es[j].0);
    }
  }

  lemma PairsLast(es: seq<Entry>)
    requires es != []
    ensures var n := |es| - 1;
      Pairs(es) == if es[n].1.Some? then Pairs(es[..n]) + [(es[n].0, es[n].1.value)] else Pairs(es[..n])
  {
  }

  /** The last key is not among the earlier ones. */
  lemma KeyIsNew(es: seq<Entry>)
    requires DistinctKeys(es) && es != []
    ensures Lookup(Pairs(es[..|es| - 1]), es[|es| - 1].0).None?
  {
    var n := |es| - 1;
    PairKeys(es[..n]);
    hide Pairs, Lookup;
    forall p | p in Pairs(es[..n])
      ensures p.0 != es[n].0
    {
      var i :| 0 <= i < n && es[..n][i] == (p.0, Some(p.1));
    }
    LookupAbsent(Pairs(es[..n]), es[n].0);
  }

  /** The pairs of the first `k` fields have been written, and the cursor is at `i`. */
  ghost predicate DoneUpTo(p: array<int>, i: nat, es: seq<Entry>, k: nat)
    reads p
  {
    k <= |es| && i <= p.Length && p[..i] == Flat(Pairs(es[..k]))
  }

  /** `p[i++] = key; p[i++] = val;` if the value is there, as the encoders do for field number `k`. */
  method Put(p: array<int>, i: nat, e: Entry, ghost es: seq<Entry>, ghost k: nat) returns (i': nat)
    requires k < |es| && es[k] == e && DoneUpTo(p, i, es, k) && i + Width(e) <= p.Length
    modifies p
    ensures i' == i + Width(e) && DoneUpTo(p, i', es, k + 1)
  {
    i' := i;
    assert es[..k + 1][..k] == es[..k];
    if e.1.Some? {
      p[i'] := e.0;
      i' := i' + 1;
      p[i'] := e.1.value;
      i' := i' + 1;
      ghost var pairs := Pairs(es[..k]) + [(e.0, e.1.value)];
      assert pairs[..|pairs| - 1] == Pairs(es[..k]);
      assert p[..i + 2] == p[..i] + [e.0, e.1.value];
    } else {
      assert Pairs(es[..k]) + [] == Pairs(es[..k]);
    }
  }

  /** `p[i] = 0;` after the last field. */
  method Terminate(p: array<int>, i: nat, ghost es: seq<Entry>)
    requires i < p.Length && DoneUpTo(p, i, es, |es|) && forall e <- es :: e.0 != 0
    modifies p
    ensures ListOf(p[..], Pairs(es)) && i == 2 * |Pairs(es)|
  {
    p[i] := 0;
    PairKeys(es);
    assert es[..|es|] == es;
    assert p[..][..i] == p[..i];
  }

  lemma NothingDone(p: array<int>, es: seq<Entry>)
    ensures DoneUpTo(p, 0, es, 0)
  {
  }

  /** The places a field takes in the list. */
  function Width(e: Entry): nat {
    if e.1.Some? then 2 else 0
  }

  // ---------- context properties ----------

  const CL_CONTEXT_PLATFORM := 0x1084
  const CL_CONTEXT_INTEROP_USER_SYNC := 0x1085
  const CL_GL_CONTEXT_KHR := 0x2008
  const CL_EGL_DISPLAY_KHR := 0x2009
  const CL_GLX_DISPLAY_KHR := 0x200A
  const CL_WGL_HDC_KHR := 0x200B
  const CL_CGL_SHAREGROUP_KHR := 0x200C
  const CL_CONTEXT_TERMINATE_KHR := 0x2032

  /** The Lua table; pointers are integers. */
  datatype ContextFields = ContextFields(
    platform: Option<int>, interopUserSync: Option<bool>, glContext: Option<int>, cglSharegroup: Option<int>,
    glxDisplay: Option<int>, eglDisplay: Option<int>, wglHdc: Option<int>, contextTerminate: Option<bool>)

  const NO_CONTEXT_FIELDS := ContextFields(None, None, None, None, None, None, None, None)

  function FromBool(b: bool): int {
    if b then 1 else 0
  }

  function BoolEntry(b: Option<bool>): Option<int> {
    if b.Some? then Some(FromBool(b.value)) else None
  }

  /** The fields in the order in which the encoder writes them. */
  function ContextEntries(f: ContextFields): seq<Entry> {
    [ (CL_CONTEXT_PLATFORM, f.platform), (CL_CONTEXT_INTEROP_USER_SYNC, BoolEntry(f.interopUserSync)),
      (CL_GL_CONTEXT_KHR, f.glContext), (CL_CGL_SHAREGROUP_KHR, f.cglSharegroup),
      (CL_GLX_DISPLAY_KHR, f.glxDisplay), (CL_EGL_DISPLAY_KHR, f.eglDisplay),
      (CL_WGL_HDC_KHR, f.wglHdc), (CL_CONTEXT_TERMINATE_KHR, BoolEntry(f.contextTerminate)) ]
  }

  function ToBool(v: Option<int>): Option<bool> {
    if v.Some? then Some(v.value != 0) else None
  }

  /** The table that a decoder makes of a list. */
  function ContextFrom(pairs: seq<Pair>): ContextFields {
    ContextFields(Lookup(pairs, CL_CONTEXT_PLATFORM), ToBool(Lookup(pairs, CL_CONTEXT_INTEROP_USER_SYNC)),
                  Lookup(pairs, CL_GL_CONTEXT_KHR), Lookup(pairs, CL_CGL_SHAREGROUP_KHR),
                  Lookup(pairs, CL_GLX_DISPLAY_KHR), Lookup(pairs, CL_EGL_DISPLAY_KHR),
                  Lookup(pairs, CL_WGL_HDC_KHR), ToBool(Lookup(pairs, CL_CONTEXT_TERMINATE_KHR)))
  }

  lemma ContextRoundTrip(f: ContextFields)
    ensures DistinctKeys(ContextEntries(f))
    ensures ContextFrom(Pairs(ContextEntries(f))) == f
  {
    var es := ContextEntries(f);
    hide Pairs, Lookup;
    LookupEncoded(es, 0);
    LookupEncoded(es, 1);
    LookupEncoded(es, 2);
    LookupEncoded(es, 3);
    LookupEncoded(es, 4);
    LookupEncoded(es, 5);
    LookupEncoded(es, 6);
    LookupEncoded(es, 7);
  }

  /** A pointer field holds the bit pattern that the encoder uses for "absent". */
  predicate HasSentinel(f: ContextFields) {
    Some(-1) in {f.glContext, f.cglSharegroup, f.glxDisplay, f.eglDisplay, f.wglHdc}
  }

  function Kept(v: Option<int>): Option<int> {
    if v == Some(-1) then None else v
  }

  /** What is left of a table when the encoder has overlooked those fields. */
  function KeptFields(f: ContextFields): ContextFields {
    ContextFields(f.platform, f.interopUserSync, Kept(f.glContext), Kept(f.cglSharegroup), Kept(f.glxDisplay),
                  Kept(f.eglDisplay), Kept(f.wglHdc), f.contextTerminate)
  }

  /** A platform given by the caller takes the place of the field (structs.c:238-242). */
  function WithPlatform(f: ContextFields, usePlatform: int): ContextFields {
    if usePlatform != 0 then f.(platform := Some(usePlatform)) else f
  }

  function Or(v: Option<int>, absent: int): int {
    if v.Some? then v.value else absent
  }

  /** The encoder's local variables (structs.c:221-228), after the fields have been read. */
  datatype Locals = Locals(platform: int, interop: int, gl: int, cgl: int, glx: int, egl: int, wgl: int, terminate: int)

  function LocalsOf(f: ContextFields, usePlatform: int): Locals {
    Locals(if usePlatform != 0 then usePlatform else Or(f.platform, 0), Or(BoolEntry(f.interopUserSync), -1),
           Or(f.glContext, -1), Or(f.cglSharegroup, -1), Or(f.glxDisplay, -1), Or(f.eglDisplay, -1), Or(f.wglHdc, -1),
           Or(BoolEntry(f.contextTerminate), -1))
  }

  /** What the encoder counts, field by field (structs.c:236-303). */
  function Counted(f: ContextFields): nat {
    var es := ContextEntries(f);
    Width(es[0]) + Width(es[1]) + Width(es[2]) + Width(es[3])
    + Width(es[4]) + Width(es[5]) + Width(es[6]) + Width(es[7])
  }

  /** What it then writes. */
  function Written(l: Locals): nat {
    var es := RawEntries(l);
    Width(es[0]) + Width(es[1]) + Width(es[2]) + Width(es[3])
    + Width(es[4]) + Width(es[5]) + Width(es[6]) + Width(es[7])
  }

  function Raw(key: int, val: int, absent: int): Entry {
    (key, if val != absent then Some(val) else None)
  }

  function RawEntries(l: Locals): seq<Entry> {
    [ Raw(CL_CONTEXT_PLATFORM, l.platform, 0), Raw(CL_CONTEXT_INTEROP_USER_SYNC, l.interop, -1),
      Raw(CL_GL_CONTEXT_KHR, l.gl, -1), Raw(CL_CGL_SHAREGROUP_KHR, l.cgl, -1), Raw(CL_GLX_DISPLAY_KHR, l.glx, -1),
      Raw(CL_EGL_DISPLAY_KHR, l.egl, -1), Raw(CL_WGL_HDC_KHR, l.wgl, -1),
      Raw(CL_CONTEXT_TERMINATE_KHR, l.terminate, -1) ]
  }

  lemma LocalsEntries(f: ContextFields, usePlatform: int)
    requires WithPlatform(f, usePlatform).platform != Some(0)
    ensures RawEntries(LocalsOf(f, usePlatform)) == ContextEntries(KeptFields(WithPlatform(f, usePlatform)))
  {
  }

  /** The write cursor meets the count exactly when no pointer field holds the sentinel. */
  lemma CursorMeetsCount(f: ContextFields, usePlatform: int)
    requires WithPlatform(f, usePlatform).platform != Some(0)
    ensures var g := WithPlatform(f, usePlatform);
      && 0 <= Written(LocalsOf(f, usePlatform)) <= Counted(g)
      && (Written(LocalsOf(f, usePlatform)) == Counted(g) <==> !HasSentinel(f))
      && (Counted(g) == 0 <==> g == NO_CONTEXT_FIELDS)
  {
    var g, l := WithPlatform(f, usePlatform), LocalsOf(f, usePlatform);
    LocalsFields(f, usePlatform);
    CountedFields(g);
    WrittenFields(l);
    hide Written, Counted, LocalsOf, Or, Width, Raw;
    FieldCounts(CL_CONTEXT_PLATFORM, g.platform, 0);
    FieldCounts(CL_CONTEXT_INTEROP_USER_SYNC, BoolEntry(g.interopUserSync), -1);
    FieldCounts(CL_GL_CONTEXT_KHR, g.glContext, -1);
    FieldCounts(CL_CGL_SHAREGROUP_KHR, g.cglSharegroup, -1);
    FieldCounts(CL_GLX_DISPLAY_KHR, g.glxDisplay, -1);
    FieldCounts(CL_EGL_DISPLAY_KHR, g.eglDisplay, -1);
    FieldCounts(CL_WGL_HDC_KHR, g.wglHdc, -1);
    FieldCounts(CL_CONTEXT_TERMINATE_KHR, BoolEntry(g.contextTerminate), -1);
  }

  lemma LocalsFields(f: ContextFields, usePlatform: int)
    requires WithPlatform(f, usePlatform).platform != Some(0)
    ensures var g := WithPlatform(f, usePlatform);
      LocalsOf(f, usePlatform)
      == Locals(Or(g.platform, 0), Or(BoolEntry(g.interopUserSync), -1), Or(g.glContext, -1), Or(g.cglSharegroup, -1),
                Or(g.glxDisplay, -1), Or(g.eglDisplay, -1), Or(g.wglHdc, -1), Or(BoolEntry(g.contextTerminate), -1))
  {
  }

  lemma CountedFields(g: ContextFields)
    ensures Counted(g)
         == Width((CL_CONTEXT_PLATFORM, g.platform))
            + Width((CL_CONTEXT_INTEROP_USER_SYNC, BoolEntry(g.interopUserSync)))
            + Width((CL_GL_CONTEXT_KHR, g.glContext)) + Width((CL_CGL_SHAREGROUP_KHR, g.cglSharegroup))
            + Width((CL_GLX_DISPLAY_KHR, g.glxDisplay)) + Width((CL_EGL_DISPLAY_KHR, g.eglDisplay))
            + Width((CL_WGL_HDC_KHR, g.wglHdc)) + Width((CL_CONTEXT_TERMINATE_KHR, BoolEntry(g.contextTerminate)))
  {
    hide Width;
  }

  lemma WrittenFields(l: Locals)
    ensures Written(l)
         == Width(Raw(CL_CONTEXT_PLATFORM, l.platform, 0)) + Width(Raw(CL_CONTEXT_INTEROP_USER_SYNC, l.interop, -1))
            + Width(Raw(CL_GL_CONTEXT_KHR, l.gl, -1)) + Width(Raw(CL_CGL_SHAREGROUP_KHR, l.cgl, -1))
            + Width(Raw(CL_GLX_DISPLAY_KHR, l.glx, -1)) + Width(Raw(CL_EGL_DISPLAY_KHR, l.egl, -1))
            + Width(Raw(CL_WGL_HDC_KHR, l.wgl, -1)) + Width(Raw(CL_CONTEXT_TERMINATE_KHR, l.terminate, -1))
  {
    hide Width, Raw, RawEntries;
    RawEntriesAt(l);
  }

  /** A field is written unless it is absent or is the value that stands for absence. */
  lemma FieldCounts(key: int, v: Option<int>, absent: int)
    ensures Width(Raw(key, Or(v, absent), absent)) <= Width((key, v)) <= 2
    ensures Width(Raw(key, Or(v, absent), absent)) == Width((key, v)) <==> v != Some(absent)
    ensures Width((key, v)) == 0 <==> v == None
  {
  }

  /** echeckcontextproperties (structs.c:216-365); `i` is where the write cursor ends and `n` what was counted. A
      platform of 0 stands for one that is no platform object (structs.c:249-256). */
  method EncodeContext(f: ContextFields, usePlatform: int) returns (p: array<int>, r: Result<()>, i: nat, n: nat)
    ensures r == if usePlatform == 0 && f.platform == Some(0) then BadValue
                 else if usePlatform == 0 && f == NO_CONTEXT_FIELDS then NotPresent else Ok(())
    ensures r.Ok? ==> p.Length == n + 1 && i <= n && (i == n <==> !HasSentinel(f))
    ensures r.Ok? ==> ListOf(p[..],
      Listed(0x1084, if usePlatform != 0 then Some(usePlatform) else f.platform)
      + Listed(0x1085, if f.interopUserSync.Some? then Some(if f.interopUserSync.value then 1 else 0) else None)
      + Listed(0x2008, if f.glContext == Some(-1) then None else f.glContext)
      + Listed(0x200C, if f.cglSharegroup == Some(-1) then None else f.cglSharegroup)
      + Listed(0x200A, if f.glxDisplay == Some(-1) then None else f.glxDisplay)
      + Listed(0x2009, if f.eglDisplay == Some(-1) then None else f.eglDisplay)
      + Listed(0x200B, if f.wglHdc == Some(-1) then None else f.wglHdc)
      + Listed(0x2032, if f.contextTerminate.Some? then Some(if f.contextTerminate.value then 1 else 0) else None))
    ensures r.Ok? ==> var pairs := Pairs(ContextEntries(KeptFields(WithPlatform(f, usePlatform))));
      ListOf(p[..], pairs) && i == 2 * |pairs|
  {
    hide Flat, Pairs, ListOf, RawEntries, ContextEntries, LocalsOf, Written, Counted, HasSentinel, KeptFields, Listed;
    i, n := 0, 0;
    p := new int[0];
    if usePlatform == 0 && f.platform == Some(0) {
      return p, BadValue, i, n;
    }
    CursorMeetsCount(f, usePlatform);
    LocalsEntries(f, usePlatform);
    n := Counted(WithPlatform(f, usePlatform));
    if n == 0 {
      return p, NotPresent, i, n;
    }
    p := new int[n + 1];
    i := WriteContext(p, LocalsOf(f, usePlatform));
    ContextListed(KeptFields(WithPlatform(f, usePlatform)));
    KeptAre(f, usePlatform);
    r := Ok(());
  }

  lemma KeptAre(f: ContextFields, usePlatform: int)
    ensures var g := KeptFields(WithPlatform(f, usePlatform));
      && g.platform == (if usePlatform != 0 then Some(usePlatform) else f.platform)
      && g.interopUserSync == f.interopUserSync && g.contextTerminate == f.contextTerminate
      && g.glContext == (if f.glContext == Some(-1) then None else f.glContext)
      && g.cglSharegroup == (if f.cglSharegroup == Some(-1) then None else f.cglSharegroup)
      && g.glxDisplay == (if f.glxDisplay == Some(-1) then None else f.glxDisplay)
      && g.eglDisplay == (if f.eglDisplay == Some(-1) then None else f.eglDisplay)
      && g.wglHdc == (if f.wglHdc == Some(-1) then None else f.wglHdc)
  {
  }

  /** The pairs of a table, one field after the other. */
  lemma ContextListed(f: ContextFields)
    ensures Pairs(ContextEntries(f))
         == Listed(0x1084, f.platform)
            + Listed(0x1085, if f.interopUserSync.Some? then Some(if f.interopUserSync.value then 1 else 0) else None)
            + Listed(0x2008, f.glContext) + Listed(0x200C, f.cglSharegroup) + Listed(0x200A, f.glxDisplay)
            + Listed(0x2009, f.eglDisplay) + Listed(0x200B, f.wglHdc)
            + Listed(0x2032,
                     if f.contextTerminate.Some? then Some(if f.contextTerminate.value then 1 else 0) else None)
  {
    var es := ContextEntries(f);
    ContextEntriesAt(f);
    NothingPaired(es);
    hide Pairs, Listed, ContextEntries;
    PairsStep(es, 0);
    PairsStep(es, 1);
    PairsStep(es, 2);
    PairsStep(es, 3);
    PairsStep(es, 4);
    PairsStep(es, 5);
    PairsStep(es, 6);
    PairsStep(es, 7);
    assert es[..8] == es;
    assert [] + Listed(es[0].0, es[0].1) == Listed(es[0].0, es[0].1);
  }

  lemma NothingPaired(es: seq<Entry>)
    ensures Pairs(es[..0]) == []
  {
  }

  lemma ContextEntriesAt(f: ContextFields)
    ensures var es := ContextEntries(f);
      && |es| == 8 && es[0] == (0x1084, f.platform) && es[1].0 == 0x1085 && es[7].0 == 0x2032
      && es[1].1 == (if f.interopUserSync.Some? then Some(if f.interopUserSync.value then 1 else 0) else None)
      && es[2] == (0x2008, f.glContext) && es[3] == (0x200C, f.cglSharegroup) && es[4] == (0x200A, f.glxDisplay)
      && es[5] == (0x2009, f.eglDisplay) && es[6] == (0x200B, f.wglHdc)
      && es[7].1 == (if f.contextTerminate.Some? then Some(if f.contextTerminate.value then 1 else 0) else None)
  {
  }

  lemma RawEntriesAt(l: Locals)
    ensures var es := RawEntries(l);
      && |es| == 8 && (forall e <- es :: e.0 != 0)
      && es[0] == Raw(CL_CONTEXT_PLATFORM, l.platform, 0) && es[1] == Raw(CL_CONTEXT_INTEROP_USER_SYNC, l.interop, -1)
      && es[2] == Raw(CL_GL_CONTEXT_KHR, l.gl, -1) && es[3] == Raw(CL_CGL_SHAREGROUP_KHR, l.cgl, -1)
      && es[4] == Raw(CL_GLX_DISPLAY_KHR, l.glx, -1) && es[5] == Raw(CL_EGL_DISPLAY_KHR, l.egl, -1)
      && es[6] == Raw(CL_WGL_HDC_KHR, l.wgl, -1) && es[7] == Raw(CL_CONTEXT_TERMINATE_KHR, l.terminate, -1)
  {
  }

  /** The second half of the encoder (structs.c:321-363): it writes the pairs and the terminator. */
  method WriteContext(p: array<int>, l: Locals) returns (i: nat)
    requires p.Length > Written(l)
    modifies p
    ensures ListOf(p[..], Pairs(RawEntries(l))) && i == 2 * |Pairs(RawEntries(l))| && i == Written(l)
  {
    hide Flat, Pairs, ListOf, DoneUpTo, RawEntries, Raw, Width;
    ghost var es := RawEntries(l);
    RawEntriesAt(l);
    NothingDone(p, es);
    i := Put(p, 0, Raw(CL_CONTEXT_PLATFORM, l.platform, 0), es, 0);
    i := Put(p, i, Raw(CL_CONTEXT_INTEROP_USER_SYNC, l.interop, -1), es, 1);
    i := Put(p, i, Raw(CL_GL_CONTEXT_KHR, l.gl, -1), es, 2);
    i := Put(p, i, Raw(CL_CGL_SHAREGROUP_KHR, l.cgl, -1), es, 3);
    i := Put(p, i, Raw(CL_GLX_DISPLAY_KHR, l.glx, -1), es, 4);
    i := Put(p, i, Raw(CL_EGL_DISPLAY_KHR, l.egl, -1), es, 5);
    i := Put(p, i, Raw(CL_WGL_HDC_KHR, l.wgl, -1), es, 6);
    i := Put(p, i, Raw(CL_CONTEXT_TERMINATE_KHR, l.terminate, -1), es, 7);
    Terminate(p, i, es);
  }

  const CONTEXT_KEYS := {CL_CONTEXT_PLATFORM, CL_CONTEXT_INTEROP_USER_SYNC, CL_GL_CONTEXT_KHR, CL_CGL_SHAREGROUP_KHR,
                         CL_GLX_DISPLAY_KHR, CL_EGL_DISPLAY_KHR, CL_WGL_HDC_KHR, CL_CONTEXT_TERMINATE_KHR}

  /** One turn of the decoder's walk (structs.c:380-421), for a key it knows. */
  function SetContextField(f: ContextFields, key: int, val: int): ContextFields {
    if key == CL_CONTEXT_PLATFORM then f.(platform := Some(val))
    else if key == CL_CONTEXT_INTEROP_USER_SYNC then f.(interopUserSync := Some(val != 0))
    else if key == CL_GL_CONTEXT_KHR then f.(glContext := Some(val))
    else if key == CL_CGL_SHAREGROUP_KHR then f.(cglSharegroup := Some(val))
    else if key == CL_GLX_DISPLAY_KHR then f.(glxDisplay := Some(val))
    else if key == CL_EGL_DISPLAY_KHR then f.(eglDisplay := Some(val))
    else if key == CL_WGL_HDC_KHR then f.(wglHdc := Some(val))
    else f.(contextTerminate := Some(val != 0))
  }

  lemma ContextStep(pairs: seq<Pair>, p: Pair)
    requires p.0 in CONTEXT_KEYS
    ensures ContextFrom(pairs + [p]) == SetContextField(ContextFrom(pairs), p.0, p.1)
  {
    hide Lookup;
    LookupAppend(pairs, p, CL_CONTEXT_PLATFORM);
    LookupAppend(pairs, p, CL_CONTEXT_INTEROP_USER_SYNC);
    LookupAppend(pairs, p, CL_GL_CONTEXT_KHR);
    LookupAppend(pairs, p, CL_CGL_SHAREGROUP_KHR);
    LookupAppend(pairs, p, CL_GLX_DISPLAY_KHR);
    LookupAppend(pairs, p, CL_EGL_DISPLAY_KHR);
    LookupAppend(pairs, p, CL_WGL_HDC_KHR);
    LookupAppend(pairs, p, CL_CONTEXT_TERMINATE_KHR);
  }

  /** pushcontextproperties (structs.c:368-425), on a list of any pairs; nil is None. */
  method DecodeContext(p: array?<int>, ghost pairs: seq<Pair>) returns (r: Result<Option<ContextFields>>)
    requires p != null ==> ListOf(p[..], pairs)
    ensures p == null || pairs == [] ==> r == Ok(None)
    ensures p != null && pairs != [] && (forall q <- pairs :: q.0 in CONTEXT_KEYS) ==>
      && r == Ok(Some(ContextFrom(pairs)))
      && var f := r.value.value;
      && f.platform == Lookup(pairs, 0x1084) && f.glContext == Lookup(pairs, 0x2008)
      && f.cglSharegroup == Lookup(pairs, 0x200C) && f.glxDisplay == Lookup(pairs, 0x200A)
      && f.eglDisplay == Lookup(pairs, 0x2009) && f.wglHdc == Lookup(pairs, 0x200B)
      && IsFlag(f.interopUserSync, Lookup(pairs, 0x1085)) && IsFlag(f.contextTerminate, Lookup(pairs, 0x2032))
    ensures p != null && (exists q <- pairs :: q.0 !in CONTEXT_KEYS) ==> r == Unknown
  {
    DecodedFields(pairs);
    hide ListOf, ContextFrom, SetContextField, IsFlag;
    if p == null {
      return Ok(None);
    }
    ListAt(p[..], pairs, 0);
    ListLength(p[..], pairs);
    if p[0] == 0 {
      return Ok(None);
    }
    var i, f := 0, NO_CONTEXT_FIELDS;
    ghost var k := 0;
    NothingFound();
    while p[i] != 0
      invariant i == 2 * k && k <= |pairs| && 2 * |pairs| < p.Length && f == ContextFrom(pairs[..k])
      invariant p[i] != 0 <==> k < |pairs|
      invariant forall q <- pairs[..k] :: q.0 in CONTEXT_KEYS
      decreases |pairs| - k
    {
      ListAt(p[..], pairs, k);
      if p[i] !in CONTEXT_KEYS {
        assert pairs[k] in pairs;
        return Unknown;
      }
      ContextStep(pairs[..k], pairs[k]);
      assert pairs[..k + 1] == pairs[..k] + [pairs[k]];
      f := SetContextField(f, p[i], p[i + 1]);
      i, k := i + 2, k + 1;
      ListAt(p[..], pairs, k);
    }
    assert pairs[..|pairs|] == pairs;
    r := Ok(Some(f));
  }

  lemma DecodedFields(pairs: seq<Pair>)
    ensures var f := ContextFrom(pairs);
      && f.platform == Lookup(pairs, 0x1084) && f.glContext == Lookup(pairs, 0x2008)
      && f.cglSharegroup == Lookup(pairs, 0x200C) && f.glxDisplay == Lookup(pairs, 0x200A)
      && f.eglDisplay == Lookup(pairs, 0x2009) && f.wglHdc == Lookup(pairs, 0x200B)
      && IsFlag(f.interopUserSync, Lookup(pairs, 0x1085)) && IsFlag(f.contextTerminate, Lookup(pairs, 0x2032))
  {
    hide Lookup;
  }

  /** A boolean field read back from a value: false exactly for 0. */
  predicate IsFlag(b: Option<bool>, v: Option<int>) {
    && (b.Some? <==> v.Some?) && (b.Some? ==> (b.value <==> v.value != 0))
  }

  lemma NothingFound()
    ensures ContextFrom([]) == NO_CONTEXT_FIELDS
  {
  }

  lemma ListLength(s: seq<int>, pairs: seq<Pair>)
    requires ListOf(s, pairs)
    ensures |s| > 2 * |pairs|
  {
  }

  /** Decoding what was encoded gives the table back exactly when no pointer is the sentinel. */
  lemma ContextSurvives(f: ContextFields, usePlatform: int)
    ensures var g := WithPlatform(f, usePlatform);
      ContextFrom(Pairs(ContextEntries(KeptFields(g)))) == g <==> !HasSentinel(f)
  {
    ContextRoundTrip(KeptFields(WithPlatform(f, usePlatform)));
  }

  /** A table whose only field is such a pointer is encoded as the empty list, which decodes to nil. */
  lemma SentinelLost()
    ensures var f := NO_CONTEXT_FIELDS.(glContext := Some(-1));
      HasSentinel(f) && Pairs(ContextEntries(KeptFields(f))) == [] && Counted(f) == 2
  {
    var f := NO_CONTEXT_FIELDS.(glContext := Some(-1));
    AllAbsent(ContextEntries(KeptFields(f)));
  }

  lemma {:induction false} AllAbsent(es: seq<Entry>)
    requires forall e <- es :: e.1.None?
    ensures Pairs(es) == []
  {
    if es != [] {
      AllAbsent(es[..|es| - 1]);
    }
  }

  lemma NoPairs(f: ContextFields)
    ensures Pairs(ContextEntries(f)) == [] <==> f == NO_CONTEXT_FIELDS
  {
    ContextRoundTrip(f);
    NothingFound();
    if f == NO_CONTEXT_FIELDS {
      AllAbsent(ContextEntries(f));
    }
  }

  lemma ContextKeysKnown(f: ContextFields)
    ensures forall q <- Pairs(ContextEntries(f)) :: q.0 in CONTEXT_KEYS
  {
    PairKeys(ContextEntries(f));
    hide Pairs;
  }

  /** Encoding and decoding: the table comes back, with the caller's platform, exactly when no pointer is the
      sentinel; otherwise those pointers are missing, and if nothing else is there, so is the table. */
  method EncodeDecodeContext(f: ContextFields, usePlatform: int) returns (r: Result<Option<ContextFields>>)
    ensures usePlatform == 0 && f.platform == Some(0) ==> r == BadValue
    ensures usePlatform == 0 && f == NO_CONTEXT_FIELDS ==> r == NotPresent
    ensures usePlatform != 0 || (f.platform != Some(0) && f != NO_CONTEXT_FIELDS) ==>
      var g := f.(platform := if usePlatform != 0 then Some(usePlatform) else f.platform);
      var kept := g.(glContext := if f.glContext == Some(-1) then None else f.glContext,
                     cglSharegroup := if f.cglSharegroup == Some(-1) then None else f.cglSharegroup,
                     glxDisplay := if f.glxDisplay == Some(-1) then None else f.glxDisplay,
                     eglDisplay := if f.eglDisplay == Some(-1) then None else f.eglDisplay,
                     wglHdc := if f.wglHdc == Some(-1) then None else f.wglHdc);
      && r == Ok(if kept == NO_CONTEXT_FIELDS then None else Some(kept))
      && (r == Ok(Some(g)) <==> Some(-1) !in {f.glContext, f.cglSharegroup, f.glxDisplay, f.eglDisplay, f.wglHdc})
  {
    hide Pairs, ContextEntries, ContextFrom, ListOf, Listed, IsFlag;
    var p, e, i, n := EncodeContext(f, usePlatform);
    if e != Ok(()) {
      return if e == BadValue then BadValue else NotPresent;
    }
    ghost var kept := KeptFields(WithPlatform(f, usePlatform));
    ContextRoundTrip(kept);
    NoPairs(kept);
    ContextSurvives(f, usePlatform);
    ContextKeysKnown(kept);
    r := DecodeContext(p, Pairs(ContextEntries(kept)));
  }

  // ---------- queue properties ----------

  const CL_QUEUE_PROPERTIES := 0x1093
  const CL_QUEUE_SIZE := 0x1094
  const CL_QUEUE_PRIORITY_KHR := 0x1096
  const CL_QUEUE_THROTTLE_KHR := 0x1097

  const UINT_LIMIT := 0x1_0000_0000

  /** -1 as a cl_uint. */
  const NO_UINT := 0xFFFF_FFFF

  datatype QueueFields = QueueFields(
    properties: Option<int>, size: Option<int>, priority: Option<int>, throttle: Option<int>)

  const NO_QUEUE_FIELDS := QueueFields(None, None, None, None)

  function QueueEntries(f: QueueFields): seq<Entry> {
    [ (CL_QUEUE_PROPERTIES, f.properties), (CL_QUEUE_SIZE, f.size), (CL_QUEUE_PRIORITY_KHR, f.priority),
      (CL_QUEUE_THROTTLE_KHR, f.throttle) ]
  }

  function QueueFrom(pairs: seq<Pair>): QueueFields {
    QueueFields(Lookup(pairs, CL_QUEUE_PROPERTIES), Lookup(pairs, CL_QUEUE_SIZE), Lookup(pairs, CL_QUEUE_PRIORITY_KHR),
                Lookup(pairs, CL_QUEUE_THROTTLE_KHR))
  }

  lemma QueueRoundTrip(f: QueueFields)
    ensures DistinctKeys(QueueEntries(f)) && QueueFrom(Pairs(QueueEntries(f))) == f
  {
    var es := QueueEntries(f);
    hide Pairs, Lookup;
    LookupEncoded(es, 0);
    LookupEncoded(es, 1);
    LookupEncoded(es, 2);
    LookupEncoded(es, 3);
  }

  /** What the list can hold of a table: the size becomes a cl_uint, and -1 stands for "absent". */
  function KeptQueue(f: QueueFields): QueueFields {
    QueueFields(f.properties, if f.size.Some? then Some(ToUint(f.size.value)) else None,
                if f.priority == Some(NO_UINT) then None else f.priority,
                if f.throttle == Some(NO_UINT) then None else f.throttle)
  }

  /** Decoding what was encoded gives the table back exactly when the size fits a cl_uint (and the two
      enumerated values are not the one that no enumeration uses). */
  lemma QueueSurvives(f: QueueFields)
    ensures QueueFrom(Pairs(QueueEntries(KeptQueue(f)))) == f <==>
      (f.size.Some? ==> 0 <= f.size.value < UINT_LIMIT) && f.priority != Some(NO_UINT) && f.throttle != Some(NO_UINT)
  {
    QueueRoundTrip(KeptQueue(f));
  }

  /** A size of 2^32 comes back as 0. */
  lemma QueueSizeLost()
    ensures QueueFrom(Pairs(QueueEntries(KeptQueue(NO_QUEUE_FIELDS.(size := Some(UINT_LIMIT)))))).size == Some(0)
  {
    QueueRoundTrip(KeptQueue(NO_QUEUE_FIELDS.(size := Some(UINT_LIMIT))));
  }

  /** A Lua integer assigned to a cl_uint. */
  function ToUint(n: int): int {
    n % UINT_LIMIT
  }

  /** The encoder's local variables (structs.c:436-441), after the fields have been read. */
  datatype QueueLocals = QueueLocals(
    properties: int, propertiesPresent: bool, size: int, sizePresent: bool, priority: int, throttle: int)

  function QueueLocalsOf(f: QueueFields): QueueLocals {
    QueueLocals(Or(f.properties, 0), f.properties.Some?, ToUint(Or(f.size, 0)), f.size.Some?,
                Or(f.priority, NO_UINT), Or(f.throttle, NO_UINT))
  }

  function Flagged(key: int, val: int, present: bool): Entry {
    (key, if present then Some(val) else None)
  }

  function RawQueueEntries(l: QueueLocals): seq<Entry> {
    [ Flagged(CL_QUEUE_PROPERTIES, l.properties, l.propertiesPresent), Flagged(CL_QUEUE_SIZE, l.size, l.sizePresent),
      Raw(CL_QUEUE_PRIORITY_KHR, l.priority, NO_UINT), Raw(CL_QUEUE_THROTTLE_KHR, l.throttle, NO_UINT) ]
  }

  lemma QueueLocalsEntries(f: QueueFields)
    ensures RawQueueEntries(QueueLocalsOf(f)) == QueueEntries(KeptQueue(f))
  {
  }

  lemma QueueListed(f: QueueFields)
    ensures Pairs(QueueEntries(KeptQueue(f)))
         == Listed(0x1093, f.properties)
            + Listed(0x1094, if f.size.Some? then Some(f.size.value % 0x1_0000_0000) else None)
            + Listed(0x1096, if f.priority == Some(0xFFFF_FFFF) then None else f.priority)
            + Listed(0x1097, if f.throttle == Some(0xFFFF_FFFF) then None else f.throttle)
  {
    var es := QueueEntries(KeptQueue(f));
    NothingPaired(es);
    hide Pairs, Listed;
    PairsStep(es, 0);
    PairsStep(es, 1);
    PairsStep(es, 2);
    PairsStep(es, 3);
    assert es[..4] == es;
    assert [] + Listed(es[0].0, es[0].1) == Listed(es[0].0, es[0].1);
  }

  /** echeckqueueproperties (structs.c:431-522) */
  method EncodeQueue(f: QueueFields) returns (p: array<int>, r: Result<()>, i: nat, n: nat)
    ensures r == if f == NO_QUEUE_FIELDS then NotPresent else Ok(())
    ensures r.Ok? ==> p.Length == n + 1 && i <= n
    ensures r.Ok? ==> (i == n <==> f.priority != Some(NO_UINT) && f.throttle != Some(NO_UINT))
    ensures r.Ok? ==> ListOf(p[..], Pairs(QueueEntries(KeptQueue(f)))) && i == 2 * |Pairs(QueueEntries(KeptQueue(f)))|
    ensures r.Ok? ==> ListOf(p[..],
      Listed(0x1093, f.properties)
      + Listed(0x1094, if f.size.Some? then Some(f.size.value % 0x1_0000_0000) else None)
      + Listed(0x1096, if f.priority == Some(0xFFFF_FFFF) then None else f.priority)
      + Listed(0x1097, if f.throttle == Some(0xFFFF_FFFF) then None else f.throttle))
  {
    hide Flat, Pairs, ListOf, DoneUpTo;
    i := 0;
    n := Width((0, f.properties)) + Width((0, f.size)) + Width((0, f.priority)) + Width((0, f.throttle));
    if n == 0 {
      p := new int[0];
      return p, NotPresent, i, n;
    }
    p := new int[n + 1];
    var l := QueueLocalsOf(f);
    ghost var es := RawQueueEntries(l);
    NothingDone(p, es);
    i := Put(p, i, Flagged(CL_QUEUE_PROPERTIES, l.properties, l.propertiesPresent), es, 0);
    i := Put(p, i, Flagged(CL_QUEUE_SIZE, l.size, l.sizePresent), es, 1);
    i := Put(p, i, Raw(CL_QUEUE_PRIORITY_KHR, l.priority, NO_UINT), es, 2);
    i := Put(p, i, Raw(CL_QUEUE_THROTTLE_KHR, l.throttle, NO_UINT), es, 3);
    Terminate(p, i, es);
    QueueLocalsEntries(f);
    QueueListed(f);
    r := Ok(());
  }

  const QUEUE_KEYS := {CL_QUEUE_PROPERTIES, CL_QUEUE_SIZE, CL_QUEUE_PRIORITY_KHR, CL_QUEUE_THROTTLE_KHR}

  /** One turn of the decoder's walk (structs.c:537-557), for a key it knows. */
  function SetQueueField(f: QueueFields, key: int, val: int): QueueFields {
    if key == CL_QUEUE_PROPERTIES then f.(properties := Some(val))
    else if key == CL_QUEUE_SIZE then f.(size := Some(val))
    else if key == CL_QUEUE_PRIORITY_KHR then f.(priority := Some(val))
    else f.(throttle := Some(val))
  }

  lemma QueueStep(pairs: seq<Pair>, p: Pair)
    requires p.0 in QUEUE_KEYS
    ensures QueueFrom(pairs + [p]) == SetQueueField(QueueFrom(pairs), p.0, p.1)
  {
    hide Lookup;
    LookupAppend(pairs, p, CL_QUEUE_PROPERTIES);
    LookupAppend(pairs, p, CL_QUEUE_SIZE);
    LookupAppend(pairs, p, CL_QUEUE_PRIORITY_KHR);
    LookupAppend(pairs, p, CL_QUEUE_THROTTLE_KHR);
  }

  /** pushqueueproperties (structs.c:525-561) */
  method DecodeQueue(p: array?<int>, ghost pairs: seq<Pair>) returns (r: Result<Option<QueueFields>>)
    requires p != null ==> ListOf(p[..], pairs)
    ensures p == null || pairs == [] ==> r == Ok(None)
    ensures p != null && pairs != [] && (forall q <- pairs :: q.0 in QUEUE_KEYS) ==>
      r == Ok(Some(QueueFields(Lookup(pairs, 0x1093), Lookup(pairs, 0x1094), Lookup(pairs, 0x1096),
                               Lookup(pairs, 0x1097))))
    ensures p != null && (exists q <- pairs :: q.0 !in QUEUE_KEYS) ==> r == Unknown
  {
    hide ListOf, SetQueueField;
    if p == null {
      return Ok(None);
    }
    ListAt(p[..], pairs, 0);
    ListLength(p[..], pairs);
    if p[0] == 0 {
      return Ok(None);
    }
    var i, f := 0, NO_QUEUE_FIELDS;
    ghost var k := 0;
    while p[i] != 0
      invariant i == 2 * k && k <= |pairs| && 2 * |pairs| < p.Length && f == QueueFrom(pairs[..k])
      invariant p[i] != 0 <==> k < |pairs|
      invariant forall q <- pairs[..k] :: q.0 in QUEUE_KEYS
      decreases |pairs| - k
    {
      ListAt(p[..], pairs, k);
      if p[i] !in QUEUE_KEYS {
        assert pairs[k] in pairs;
        return Unknown;
      }
      QueueStep(pairs[..k], pairs[k]);
      assert pairs[..k + 1] == pairs[..k] + [pairs[k]];
      f := SetQueueField(f, p[i], p[i + 1]);
      i, k := i + 2, k + 1;
      ListAt(p[..], pairs, k);
    }
    assert pairs[..|pairs|] == pairs;
    r := Ok(Some(f));
  }

  lemma NoQueuePairs(f: QueueFields)
    ensures Pairs(QueueEntries(f)) == [] <==> f == NO_QUEUE_FIELDS
    ensures forall q <- Pairs(QueueEntries(f)) :: q.0 in QUEUE_KEYS
  {
    QueueRoundTrip(f);
    PairKeys(QueueEntries(f));
    if f == NO_QUEUE_FIELDS {
      AllAbsent(QueueEntries(f));
    }
    hide Pairs;
  }

  /** Encoding and decoding: a table comes back exactly when its size fits a cl_uint and the two enumerated
      values are not the one that no enumeration uses. */
  method EncodeDecodeQueue(f: QueueFields) returns (r: Result<Option<QueueFields>>)
    ensures f == NO_QUEUE_FIELDS ==> r == NotPresent
    ensures f != NO_QUEUE_FIELDS ==>
      var kept := QueueFields(f.properties, if f.size.Some? then Some(f.size.value % 0x1_0000_0000) else None,
                              if f.priority == Some(0xFFFF_FFFF) then None else f.priority,
                              if f.throttle == Some(0xFFFF_FFFF) then None else f.throttle);
      && r == Ok(if kept == NO_QUEUE_FIELDS then None else Some(kept))
      && (r == Ok(Some(f)) <==>
            (f.size.Some? ==> 0 <= f.size.value < 0x1_0000_0000)
            && f.priority != Some(0xFFFF_FFFF) && f.throttle != Some(0xFFFF_FFFF))
  {
    hide Pairs, QueueEntries, ListOf, Lookup, Listed;
    var p, e, i, n := EncodeQueue(f);
    if !e.Ok? {
      return NotPresent;
    }
    QueueRoundTrip(KeptQueue(f));
    QueueSurvives(f);
    NoQueuePairs(KeptQueue(f));
    r := DecodeQueue(p, Pairs(QueueEntries(KeptQueue(f))));
  }

  // ---------- device partition properties ----------

  const CL_DEVICE_PARTITION_EQUALLY := 0x1086
  const CL_DEVICE_PARTITION_BY_COUNTS := 0x1087
  const CL_DEVICE_PARTITION_BY_AFFINITY_DOMAIN := 0x1088

  /** The Lua table. The encoder takes the first field that is there. */
  datatype PartitionFields = PartitionFields(
    equally: Option<int>, byAffinityDomain: Option<int>, byCounts: Option<seq<int>>)

  datatype Partition = Equally(n: int) | ByAffinityDomain(domain: int) | ByCounts(counts: seq<int>)

  /** echeckdevicepartitionproperty (structs.c:98-177) */
  method EncodePartition(f: PartitionFields) returns (p: array<int>, r: Result<Partition>)
    ensures f.equally.Some? ==> r == Ok(Equally(f.equally.value)) && p[..] == [0x1086, f.equally.value, 0]
    ensures f.equally == None && f.byAffinityDomain.Some? ==>
      r == Ok(ByAffinityDomain(f.byAffinityDomain.value)) && p[..] == [0x1088, f.byAffinityDomain.value, 0]
    ensures f.equally == None && f.byAffinityDomain == None && f.byCounts.Some? ==>
      if f.byCounts.value == [] then r == BadValue
      else r == Ok(ByCounts(f.byCounts.value)) && p[..] == [0x1087] + f.byCounts.value + [0, 0]
    ensures f == PartitionFields(None, None, None) ==> r == Empty
  {
    p := new int[0];
    if f.equally.Some? {
      p := new int[3];
      p[0], p[1], p[2] := CL_DEVICE_PARTITION_EQUALLY, f.equally.value, 0;
      return p, Ok(Equally(f.equally.value));
    }
    if f.byAffinityDomain.Some? {
      p := new int[3];
      p[0], p[1], p[2] := CL_DEVICE_PARTITION_BY_AFFINITY_DOMAIN, f.byAffinityDomain.value, 0;
      return p, Ok(ByAffinityDomain(f.byAffinityDomain.value));
    }
    if f.byCounts.Some? {
      var counts := f.byCounts.value;
      var n := |counts|;
      if n == 0 {
        return p, BadValue;
      }
      p := new int[n + 3];
      WriteCounts(p, counts);
      return p, Ok(ByCounts(counts));
    }
    r := Empty;
  }

  /** structs.c:152-167 */
  method WriteCounts(p: array<int>, counts: seq<int>)
    requires p.Length == |counts| + 3
    modifies p
    ensures p[..] == [CL_DEVICE_PARTITION_BY_COUNTS] + counts + [0, 0]
  {
    var n := |counts|;
    p[0] := CL_DEVICE_PARTITION_BY_COUNTS;
    for i := 1 to n + 1
      invariant p[0] == CL_DEVICE_PARTITION_BY_COUNTS && forall j :: 1 <= j < i ==> p[j] == counts[j - 1]
    {
      p[i] := counts[i - 1];
    }
    p[n + 1] := 0;
    p[n + 2] := 0;
    assert forall j :: 1 <= j < n + 1 ==> p[..][j] == counts[j - 1];
  }

  /** How many counts precede the first zero. */
  function UpToZero(counts: seq<int>): (n: nat)
    ensures n <= |counts| && (forall i :: 0 <= i < n ==> counts[i] != 0) && (n < |counts| ==> counts[n] == 0)
  {
    if counts == [] || counts[0] == 0 then 0 else 1 + UpToZero(counts[1..])
  }

  /** The request that a list of counts decodes to. */
  function Decoded(q: Partition): Partition {
    if q.ByCounts? then ByCounts(q.counts[..UpToZero(q.counts)]) else q
  }

  /** What a list has to hold for the decoder to stay inside it: a value after a key, and an end of the counts. */
  ghost predicate Readable(p: seq<int>) {
    p != [] && (p[0] in {0x1086, 0x1088} ==> |p| >= 2) && (p[0] == 0x1087 ==> 0 in p[1..])
  }

  /** pushdevicepartitionproperty (structs.c:180-212); nil is None. */
  method DecodePartition(p: array?<int>) returns (r: Result<Option<Partition>>)
    requires p != null ==> Readable(p[..])
    ensures p == null || p[0] == 0 ==> r == Ok(None)
    ensures p != null && p[0] == 0x1086 ==> r == Ok(Some(Equally(p[1])))
    ensures p != null && p[0] == 0x1088 ==> r == Ok(Some(ByAffinityDomain(p[1])))
    ensures p != null && p[0] == 0x1087 ==> r == Ok(Some(ByCounts(p[1..1 + UpToZero(p[1..])])))
    ensures p != null && p[0] !in {0, 0x1086, 0x1087, 0x1088} ==> r == Unknown
  {
    if p == null || p[0] == 0 {
      return Ok(None);
    }
    if p[0] == CL_DEVICE_PARTITION_EQUALLY {
      return Ok(Some(Equally(p[1])));
    }
    if p[0] == CL_DEVICE_PARTITION_BY_AFFINITY_DOMAIN {
      return Ok(Some(ByAffinityDomain(p[1])));
    }
    if p[0] == CL_DEVICE_PARTITION_BY_COUNTS {
      var i, counts := 1, [];
      ghost var end := UpToZero(p[1..]);
      FirstZero(p[1..]);
      while p[i] != 0
        invariant 1 <= i <= end + 1 < p.Length && counts == p[1..i]
        decreases p.Length - i
      {
        counts := counts + [p[i]];
        i := i + 1;
      }
      return Ok(Some(ByCounts(counts)));
    }
    r := Unknown;
  }

  lemma FirstZero(s: seq<int>)
    requires 0 in s
    ensures UpToZero(s) < |s|
  {
    var i :| 0 <= i < |s| && s[i] == 0;
  }

  /** A partition request survives the round trip exactly when none of its counts is 0. */
  lemma PartitionSurvives(q: Partition)
    ensures Decoded(q) == q <==> (q.ByCounts? ==> 0 !in q.counts)
  {
    if q.ByCounts? {
      assert UpToZero(q.counts) < |q.counts| ==> q.counts[UpToZero(q.counts)] == 0;
      assert |Decoded(q).counts| == UpToZero(q.counts);
    }
  }

  /** The list of counts ends at the first zero, which is the terminator unless a count is 0. */
  lemma EncodedCounts(p: seq<int>, counts: seq<int>)
    requires p == [0x1087] + counts + [0, 0]
    ensures Readable(p) && p[1..1 + UpToZero(p[1..])] == counts[..UpToZero(counts)]
  {
    var s, n := p[1..], UpToZero(counts);
    assert s == counts + [0, 0];
    assert s[n] == 0 && forall i :: 0 <= i < n ==> s[i] == counts[i] != 0;
    FirstZero(s);
    assert UpToZero(s) == n;
    hide UpToZero;
  }

  lemma FirstEntries(p: seq<int>)
    ensures |p| >= 2 && p[0] in {0x1086, 0x1088} ==> Readable(p)
  {
  }

  /** Encoding and decoding: a request comes back exactly when none of its counts is 0. */
  method EncodeDecodePartition(f: PartitionFields) returns (r: Result<Option<Partition>>)
    ensures f.equally.Some? ==> r == Ok(Some(Equally(f.equally.value)))
    ensures f.equally == None && f.byAffinityDomain.Some? ==> r == Ok(Some(ByAffinityDomain(f.byAffinityDomain.value)))
    ensures f.equally == None && f.byAffinityDomain == None && f.byCounts.Some? ==>
      var counts := f.byCounts.value;
      if counts == [] then r == BadValue
      else r == Ok(Some(ByCounts(counts[..UpToZero(counts)]))) && (r == Ok(Some(ByCounts(counts))) <==> 0 !in counts)
    ensures f == PartitionFields(None, None, None) ==> r == Empty
  {
    hide UpToZero, Readable;
    var p, q := EncodePartition(f);
    match q {
      case Ok(request) =>
        FirstEntries(p[..]);
        if request.ByCounts? {
          EncodedCounts(p[..], request.counts);
          assert p[..][1..] == p[1..];
        }
        PartitionSurvives(request);
        r := DecodePartition(p);
      case BadValue => r := BadValue;
      case _ => r := Empty;
    }
  }

  /** The counts 3, 0 and 5 come back as 3 alone. */
  lemma PartitionZeroLost()
    ensures Decoded(ByCounts([3, 0, 5])) == ByCounts([3])
  {
    var counts := [3, 0, 5];
    assert counts[1] == 0 && counts[..1] == [3];
    assert UpToZero(counts) == 1;
  }
}
