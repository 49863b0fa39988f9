/** Reading repository indexes back from the bytes of an encoder, whatever unknown fields stand between
    the known ones (`backend/internal/repository/protobuf.go`). */
module RepoIndexRoundTrip {
  import opened Text
  import opened Wire
  import opened RepoIndex

  // ---------------------------------------------------------------- an encoder's known fields

  /** Empty strings and zeros are not written, as proto3 encoders do. */
  function Opt(num: nat, s: Bytes): seq<Field> { if s == "" then [] else [BytesField(num, s)] }

  function OptInt(num: nat, v: int): seq<Field> { if v == 0 then [] else [VarintField(num, v % TWO64)] }

  function Repeated(num: nat, ss: seq<Bytes>): seq<Field> {
    if ss == [] then [] else [BytesField(num, ss[0])] + Repeated(num, ss[1..])
  }

  function ContactFields(c: Contact): seq<Field> { Opt(1, c.website) + (Opt(2, c.discord) + []) }

  function ResourcesFields(r: Resources): seq<Field> {
    Opt(1, r.apkUrl) + (Opt(2, r.iconUrl) + (Opt(501, r.jarUrl) + []))
  }

  function SourceFields(s: Source): seq<Field> {
    OptInt(1, s.id) + (Opt(2, s.name) + (Opt(3, s.language) + (Opt(4, s.homeUrl)
      + (Repeated(5, s.mirrorUrls) + (Opt(7, s.message) + [])))))
  }

  function ExtensionFields(x: Extension, res: Bytes, srcs: seq<Bytes>): seq<Field> {
    Opt(1, x.name) + (Opt(2, x.packageName) + ([BytesField(3, res)] + (Opt(4, x.extensionLib)
      + (OptInt(5, x.versionCode) + (Opt(6, x.versionName) + (OptInt(7, x.contentWarning)
      + (Repeated(8, srcs) + [])))))))
  }

  /** A list message is there or not; the contact always is. */
  function IndexFields(x: Index, contact: Bytes, list: Option<Bytes>): seq<Field> {
    Opt(1, x.name) + (Opt(2, x.badgeLabel) + (Opt(3, x.signingKey) + ([BytesField(4, contact)]
      + ((if list.Some? then [BytesField(101, list.value)] else []) + (Opt(102, x.extensionListUrl) + [])))))
  }

  // ---------------------------------------------------------------- bytes for messages

  /** b is an encoding whose known fields are these, with any unknown ones in between. */
  ghost predicate Writes(shapes: Shapes, known: seq<Field>, b: Bytes) {
    exists fs :: Writable(shapes, fs) && Known(shapes, fs) == known && EncodeAll(fs) == b
  }

  ghost predicate IsContact(b: Bytes, c: Contact) { Writes(ContactShapes, ContactFields(c), b) }

  ghost predicate IsResources(b: Bytes, r: Resources) { Writes(ResourcesShapes, ResourcesFields(r), b) }

  ghost predicate IsSource(b: Bytes, s: Source) {
    MIN_INT64 <= s.id <= MAX_INT64 && Writes(SourceShapes, SourceFields(s), b)
  }

  ghost predicate AreSources(bs: seq<Bytes>, ss: seq<Source>) {
    |bs| == |ss| && forall i | 0 <= i < |bs| :: IsSource(bs[i], ss[i])
  }

  ghost predicate IsExtension(b: Bytes, x: Extension) {
    && MIN_INT64 <= x.versionCode <= MAX_INT64 && -0x8000_0000 <= x.contentWarning < 0x8000_0000
    && exists res, srcs :: IsResources(res, x.resources) && AreSources(srcs, x.sources)
                           && Writes(ExtensionShapes, ExtensionFields(x, res, srcs), b)
  }

  ghost predicate AreExtensions(bs: seq<Bytes>, xs: seq<Extension>) {
    |bs| == |xs| && forall i | 0 <= i < |bs| :: IsExtension(bs[i], xs[i])
  }

  ghost predicate IsList(b: Bytes, l: seq<Extension>) {
    exists bs :: AreExtensions(bs, l) && Writes(ListShapes, Repeated(1, bs), b)
  }

  ghost predicate IsIndex(b: Bytes, x: Index) {
    exists contact, list: Option<Bytes> ::
      && IsContact(contact, x.contact)
      && list.Some? == x.extensionList.Some? && (list.Some? ==> IsList(list.value, x.extensionList.value))
      && Writes(IndexShapes, IndexFields(x, contact, list), b)
  }

  // ---------------------------------------------------------------- folding over them

  lemma Written<R>(shapes: Shapes, apply: (R, Event) -> Option<R>, r: R, known: seq<Field>, b: Bytes)
    requires Writes(shapes, known, b) && forall x :: apply(x, Skipped) == Some(x)
    ensures Decode(shapes, apply, r, b) == Fold(shapes, apply, r, known)
  {
    var fs :| Writable(shapes, fs) && Known(shapes, fs) == known && EncodeAll(fs) == b;
    DecodeEncoded(shapes, apply, r, fs);
    FoldKnown(shapes, apply, r, fs);
  }

  lemma FoldBytes<R>(shapes: Shapes, apply: (R, Event) -> Option<R>, r: R, num: nat, d: Bytes, rest: seq<Field>)
    requires shapes(num) == AsBytes && apply(r, Data(num, d)).Some?
    ensures Fold(shapes, apply, r, [BytesField(num, d)] + rest)
            == Fold(shapes, apply, apply(r, Data(num, d)).value, rest)
  {
    assert ([BytesField(num, d)] + rest)[1..] == rest;
  }

  /** A string not written is the empty one the message starts with. */
  lemma FoldOpt<R>(shapes: Shapes, apply: (R, Event) -> Option<R>, r: R, num: nat, s: Bytes, rest: seq<Field>)
    requires shapes(num) == AsBytes && apply(r, Data(num, s)).Some?
    requires s == "" ==> apply(r, Data(num, s)) == Some(r)
    ensures Fold(shapes, apply, r, Opt(num, s) + rest) == Fold(shapes, apply, apply(r, Data(num, s)).value, rest)
  {
    FoldOver(shapes, apply, r, num, s, rest);
  }

  /** A string not written leaves the one there is. */
  lemma FoldOver<R>(shapes: Shapes, apply: (R, Event) -> Option<R>, r: R, num: nat, s: Bytes, rest: seq<Field>)
    requires shapes(num) == AsBytes && apply(r, Data(num, s)).Some?
    ensures Fold(shapes, apply, r, Opt(num, s) + rest)
            == Fold(shapes, apply, if s == "" then r else apply(r, Data(num, s)).value, rest)
  {
    if s == "" { assert Opt(num, s) + rest == rest; } else { FoldBytes(shapes, apply, r, num, s, rest); }
  }

  /** A number not written leaves the one there is. */
  lemma FoldInt<R>(shapes: Shapes, apply: (R, Event) -> Option<R>, r: R, num: nat, v: int, rest: seq<Field>)
    requires shapes(num) == AsVarint && apply(r, Number(num, v % TWO64)).Some?
    ensures Fold(shapes, apply, r, OptInt(num, v) + rest)
            == Fold(shapes, apply, if v == 0 then r else apply(r, Number(num, v % TWO64)).value, rest)
  {
    if v == 0 {
      assert OptInt(num, v) + rest == rest;
    } else {
      assert ([VarintField(num, v % TWO64)] + rest)[1..] == rest;
    }
  }

  lemma Int64Back(v: int)
    requires MIN_INT64 <= v <= MAX_INT64
    ensures ToInt64(v % TWO64) == v
  {
  }

  lemma Int32Back(v: int)
    requires -0x8000_0000 <= v < 0x8000_0000
    ensures ToInt32(v % TWO64) == v
  {
    assert v % TWO64 == if v < 0 then v + TWO64 else v;
  }

  // ---------------------------------------------------------------- every message reads back

  lemma ContactBack(b: Bytes, c: Contact)
    requires IsContact(b, c)
    ensures ContactOf(b) == Some(c)
  {
    hide Writes, Fold, Opt;
    Written(ContactShapes, ApplyContact, NO_CONTACT, ContactFields(c), b);
    var c1 := NO_CONTACT.(website := c.website);
    FoldOpt(ContactShapes, ApplyContact, NO_CONTACT, 1, c.website, Opt(2, c.discord) + []);
    FoldOpt(ContactShapes, ApplyContact, c1, 2, c.discord, []);
    FoldNone(ContactShapes, ApplyContact, c);
  }

  lemma FoldNone<R>(shapes: Shapes, apply: (R, Event) -> Option<R>, r: R)
    ensures Fold(shapes, apply, r, []) == Some(r)
  {
  }

  lemma ResourcesBack(b: Bytes, r: Resources)
    requires IsResources(b, r)
    ensures ResourcesOf(b) == Some(r)
  {
    hide Writes, Fold, Opt;
    Written(ResourcesShapes, ApplyResources, NO_RESOURCES, ResourcesFields(r), b);
    var r1 := NO_RESOURCES.(apkUrl := r.apkUrl);
    var r2 := r1.(iconUrl := r.iconUrl);
    FoldOpt(ResourcesShapes, ApplyResources, NO_RESOURCES, 1, r.apkUrl, Opt(2, r.iconUrl) + (Opt(501, r.jarUrl) + []));
    FoldOpt(ResourcesShapes, ApplyResources, r1, 2, r.iconUrl, Opt(501, r.jarUrl) + []);
    FoldOpt(ResourcesShapes, ApplyResources, r2, 501, r.jarUrl, []);
    FoldNone(ResourcesShapes, ApplyResources, r);
  }

  lemma {:induction false} FoldMirrors(s: Source, ms: seq<Bytes>, rest: seq<Field>)
    ensures Fold(SourceShapes, ApplySource, s, Repeated(5, ms) + rest)
            == Fold(SourceShapes, ApplySource, s.(mirrorUrls := s.mirrorUrls + ms), rest)
    decreases |ms|
  {
    hide Fold;
    if ms == [] {
      assert Repeated(5, ms) + rest == rest && s.mirrorUrls + ms == s.mirrorUrls;
    } else {
      assert Repeated(5, ms) + rest == [BytesField(5, ms[0])] + (Repeated(5, ms[1..]) + rest);
      FoldBytes(SourceShapes, ApplySource, s, 5, ms[0], Repeated(5, ms[1..]) + rest);
      FoldMirrors(s.(mirrorUrls := s.mirrorUrls + [ms[0]]), ms[1..], rest);
      assert s.mirrorUrls + ms == s.mirrorUrls + [ms[0]] + ms[1..];
    }
  }

  function Newer(a: string, b: string): string { if b == "" then a else b }

  function NewerInt(a: int, b: int): int { if b == 0 then a else b }

  /** Source t read on top of s: its mirrors behind those of s, what else it has written in place of what s had. */
  function MergeSource(s: Source, t: Source): Source {
    Source(NewerInt(s.id, t.id), Newer(s.name, t.name), Newer(s.language, t.language), Newer(s.homeUrl, t.homeUrl),
           s.mirrorUrls + t.mirrorUrls, Newer(s.message, t.message))
  }

  lemma SourceOver(b: Bytes, s: Source, t: Source)
    requires IsSource(b, t)
    ensures Decode(SourceShapes, ApplySource, s, b) == Some(MergeSource(s, t))
  {
    hide Writes, Fold, Opt, OptInt, Repeated, ToInt64;
    Written(SourceShapes, ApplySource, s, SourceFields(t), b);
    Int64Back(t.id);
    var f7 := Opt(7, t.message) + [];
    var f5 := Repeated(5, t.mirrorUrls) + f7;
    var f4 := Opt(4, t.homeUrl) + f5;
    var f3 := Opt(3, t.language) + f4;
    var f2 := Opt(2, t.name) + f3;
    var s1 := s.(id := NewerInt(s.id, t.id));
    var s2 := s1.(name := Newer(s.name, t.name));
    var s3 := s2.(language := Newer(s.language, t.language));
    var s4 := s3.(homeUrl := Newer(s.homeUrl, t.homeUrl));
    var s5 := s4.(mirrorUrls := s.mirrorUrls + t.mirrorUrls);
    FoldInt(SourceShapes, ApplySource, s, 1, t.id, f2);
    FoldOver(SourceShapes, ApplySource, s1, 2, t.name, f3);
    FoldOver(SourceShapes, ApplySource, s2, 3, t.language, f4);
    FoldOver(SourceShapes, ApplySource, s3, 4, t.homeUrl, f5);
    FoldMirrors(s4, t.mirrorUrls, f7);
    FoldOver(SourceShapes, ApplySource, s5, 7, t.message, []);
    FoldNone(SourceShapes, ApplySource, MergeSource(s, t));
  }

  lemma SourceBack(b: Bytes, s: Source)
    requires IsSource(b, s)
    ensures SourceOf(b) == Some(s)
  {
    hide Decode, IsSource;
    SourceOver(b, NO_SOURCE, s);
    assert [] + s.mirrorUrls == s.mirrorUrls;
  }

  lemma {:induction false} FoldSources(x: Extension, bs: seq<Bytes>, ss: seq<Source>, rest: seq<Field>)
    requires AreSources(bs, ss)
    ensures Fold(ExtensionShapes, ApplyExtension, x, Repeated(8, bs) + rest)
            == Fold(ExtensionShapes, ApplyExtension, x.(sources := x.sources + ss), rest)
    decreases |bs|
  {
    hide Fold, SourceOf, IsSource;
    if bs == [] {
      assert Repeated(8, bs) + rest == rest && x.sources + ss == x.sources;
    } else {
      SourceBack(bs[0], ss[0]);
      assert Repeated(8, bs) + rest == [BytesField(8, bs[0])] + (Repeated(8, bs[1..]) + rest);
      FoldBytes(ExtensionShapes, ApplyExtension, x, 8, bs[0], Repeated(8, bs[1..]) + rest);
      FoldSources(x.(sources := x.sources + [ss[0]]), bs[1..], ss[1..], rest);
      assert x.sources + ss == x.sources + [ss[0]] + ss[1..];
    }
  }

  /** Extension y read on top of x: its sources behind those of x, its resources and what else it has
      written in place of what x had. */
  function MergeExtension(x: Extension, y: Extension): Extension {
    Extension(Newer(x.name, y.name), Newer(x.packageName, y.packageName), y.resources,
              Newer(x.extensionLib, y.extensionLib), NewerInt(x.versionCode, y.versionCode),
              Newer(x.versionName, y.versionName), NewerInt(x.contentWarning, y.contentWarning),
              x.sources + y.sources)
  }

  lemma ExtensionOver(b: Bytes, x: Extension, y: Extension)
    requires IsExtension(b, y)
    ensures Decode(ExtensionShapes, ApplyExtension, x, b) == Some(MergeExtension(x, y))
  {
    hide Writes, Fold, Opt, OptInt, Repeated, ToInt64, ToInt32, ResourcesOf, SourceOf, IsResources, AreSources;
    var res, srcs :| IsResources(res, y.resources) && AreSources(srcs, y.sources)
                     && Writes(ExtensionShapes, ExtensionFields(y, res, srcs), b);
    Written(ExtensionShapes, ApplyExtension, x, ExtensionFields(y, res, srcs), b);
    ResourcesBack(res, y.resources);
    FoldExtension(x, y, res, srcs);
  }

  lemma ExtensionBack(b: Bytes, x: Extension)
    requires IsExtension(b, x)
    ensures ExtensionOf(b) == Some(x)
  {
    hide Decode, IsExtension;
    ExtensionOver(b, NO_EXTENSION, x);
    assert [] + x.sources == x.sources;
  }

  lemma FoldExtension(x: Extension, y: Extension, res: Bytes, srcs: seq<Bytes>)
    requires MIN_INT64 <= y.versionCode <= MAX_INT64 && -0x8000_0000 <= y.contentWarning < 0x8000_0000
    requires ResourcesOf(res) == Some(y.resources) && AreSources(srcs, y.sources)
    ensures Fold(ExtensionShapes, ApplyExtension, x, ExtensionFields(y, res, srcs)) == Some(MergeExtension(x, y))
  {
    hide Fold, Opt, OptInt, Repeated, ToInt64, ToInt32, ResourcesOf, SourceOf, AreSources;
    Int64Back(y.versionCode);
    Int32Back(y.contentWarning);
    var f8 := Repeated(8, srcs) + [];
    var f7 := OptInt(7, y.contentWarning) + f8;
    var f6 := Opt(6, y.versionName) + f7;
    var f5 := OptInt(5, y.versionCode) + f6;
    var f4 := Opt(4, y.extensionLib) + f5;
    var f3 := [BytesField(3, res)] + f4;
    var f2 := Opt(2, y.packageName) + f3;
    var x1 := x.(name := Newer(x.name, y.name));
    var x2 := x1.(packageName := Newer(x.packageName, y.packageName));
    var x3 := x2.(resources := y.resources);
    var x4 := x3.(extensionLib := Newer(x.extensionLib, y.extensionLib));
    var x5 := x4.(versionCode := NewerInt(x.versionCode, y.versionCode));
    var x6 := x5.(versionName := Newer(x.versionName, y.versionName));
    var x7 := x6.(contentWarning := NewerInt(x.contentWarning, y.contentWarning));
    FoldOver(ExtensionShapes, ApplyExtension, x, 1, y.name, f2);
    FoldOver(ExtensionShapes, ApplyExtension, x1, 2, y.packageName, f3);
    FoldBytes(ExtensionShapes, ApplyExtension, x2, 3, res, f4);
    FoldOver(ExtensionShapes, ApplyExtension, x3, 4, y.extensionLib, f5);
    FoldInt(ExtensionShapes, ApplyExtension, x4, 5, y.versionCode, f6);
    FoldOver(ExtensionShapes, ApplyExtension, x5, 6, y.versionName, f7);
    FoldInt(ExtensionShapes, ApplyExtension, x6, 7, y.contentWarning, f8);
    FoldSources(x7, srcs, y.sources, []);
    FoldNone(ExtensionShapes, ApplyExtension, MergeExtension(x, y));
  }

  lemma {:induction false} FoldList(l: seq<Extension>, bs: seq<Bytes>, xs: seq<Extension>)
    requires AreExtensions(bs, xs)
    ensures Fold(ListShapes, ApplyList, l, Repeated(1, bs)) == Some(l + xs)
    decreases |bs|
  {
    hide Fold, ExtensionOf, IsExtension;
    if bs == [] {
      FoldNone(ListShapes, ApplyList, l);
      assert l + xs == l;
    } else {
      ExtensionBack(bs[0], xs[0]);
      FoldBytes(ListShapes, ApplyList, l, 1, bs[0], Repeated(1, bs[1..]));
      FoldList(l + [xs[0]], bs[1..], xs[1..]);
      assert l + xs == l + [xs[0]] + xs[1..];
    }
  }

  lemma ListBack(b: Bytes, l: seq<Extension>)
    requires IsList(b, l)
    ensures ListOf(b) == Some(l)
  {
    hide Writes, Fold, Repeated, ExtensionOf, AreExtensions;
    var bs :| AreExtensions(bs, l) && Writes(ListShapes, Repeated(1, bs), b);
    Written(ListShapes, ApplyList, [], Repeated(1, bs), b);
    FoldList([], bs, l);
    assert [] + l == l;
  }

  /** What an encoder wrote for index y, read on top of x. */
  lemma IndexOver(b: Bytes, x: Index, y: Index)
    requires IsIndex(b, y)
    ensures Decode(IndexShapes, ApplyIndex, x, b) == Some(Merge(x, y))
  {
    hide Writes, Fold, IsContact, IsList, ContactOf, ListOf, IndexFields, Merge;
    var contact, list: Option<Bytes> :|
      && IsContact(contact, y.contact)
      && list.Some? == y.extensionList.Some? && (list.Some? ==> IsList(list.value, y.extensionList.value))
      && Writes(IndexShapes, IndexFields(y, contact, list), b);
    Written(IndexShapes, ApplyIndex, x, IndexFields(y, contact, list), b);
    ContactBack(contact, y.contact);
    if list.Some? { ListBack(list.value, y.extensionList.value); }
    FoldIndex(x, y, contact, list);
  }

  /** Whatever an encoder writes for an index, with unknown fields anywhere on any level, is read back
      as that index. */
  lemma IndexBack(b: Bytes, x: Index)
    requires IsIndex(b, x)
    ensures IndexOf(b) == Some(x)
  {
    hide Decode, IsIndex;
    IndexOver(b, NO_INDEX, x);
    assert Merge(NO_INDEX, x) == x;
  }

  /** Index y read on top of x: what y has written replaces what x had. */
  function Merge(x: Index, y: Index): Index {
    Index(Newer(x.name, y.name), Newer(x.badgeLabel, y.badgeLabel), Newer(x.signingKey, y.signingKey), y.contact,
          if y.extensionList.Some? then y.extensionList else x.extensionList,
          Newer(x.extensionListUrl, y.extensionListUrl))
  }

  lemma FoldIndex(x: Index, y: Index, contact: Bytes, list: Option<Bytes>)
    requires ContactOf(contact) == Some(y.contact) && list.Some? == y.extensionList.Some?
    requires list.Some? ==> ListOf(list.value) == y.extensionList
    ensures Fold(IndexShapes, ApplyIndex, x, IndexFields(y, contact, list)) == Some(Merge(x, y))
  {
    hide Fold, Opt, ContactOf, ListOf;
    var f102 := Opt(102, y.extensionListUrl) + [];
    var f101 := (if list.Some? then [BytesField(101, list.value)] else []) + f102;
    var f4 := [BytesField(4, contact)] + f101;
    var f3 := Opt(3, y.signingKey) + f4;
    var f2 := Opt(2, y.badgeLabel) + f3;
    var x1 := x.(name := Newer(x.name, y.name));
    var x2 := x1.(badgeLabel := Newer(x.badgeLabel, y.badgeLabel));
    var x3 := x2.(signingKey := Newer(x.signingKey, y.signingKey));
    var x4 := x3.(contact := y.contact);
    var x5 := if list.Some? then x4.(extensionList := y.extensionList) else x4;
    FoldOver(IndexShapes, ApplyIndex, x, 1, y.name, f2);
    FoldOver(IndexShapes, ApplyIndex, x1, 2, y.badgeLabel, f3);
    FoldOver(IndexShapes, ApplyIndex, x2, 3, y.signingKey, f4);
    FoldBytes(IndexShapes, ApplyIndex, x3, 4, contact, f101);
    if list.Some? {
      FoldBytes(IndexShapes, ApplyIndex, x4, 101, list.value, f102);
    } else {
      assert f101 == f102;
    }
    FoldOver(IndexShapes, ApplyIndex, x5, 102, y.extensionListUrl, []);
    FoldNone(IndexShapes, ApplyIndex, Merge(x, y));
  }

  // ---------------------------------------------------------------- messages that cannot be read

  lemma FieldFails<R>(shapes: Shapes, apply: (R, Event) -> Option<R>, r: R, num: nat, d: Bytes, rest: Bytes)
    requires 1 <= num <= 0x7FFF_FFFF && |d| < TWO64 && shapes(num) == AsBytes && apply(r, Data(num, d)) == None
    ensures Decode(shapes, apply, r, BytesField(num, d).Encode() + rest) == None
  {
    StepBack(shapes, BytesField(num, d), rest);
    hide Step;
  }

  /** A message inside that cannot be read makes the one around it unreadable, whatever follows. */
  lemma InnerFails(d: Bytes, rest: Bytes, x: Extension, l: seq<Extension>, i: Index)
    requires |d| < TWO64
    ensures SourceOf(d) == None ==>
              Decode(ExtensionShapes, ApplyExtension, x, BytesField(8, d).Encode() + rest) == None
    ensures ResourcesOf(d) == None ==>
              Decode(ExtensionShapes, ApplyExtension, x, BytesField(3, d).Encode() + rest) == None
    ensures ExtensionOf(d) == None ==> Decode(ListShapes, ApplyList, l, BytesField(1, d).Encode() + rest) == None
    ensures ListOf(d) == None ==> Decode(IndexShapes, ApplyIndex, i, BytesField(101, d).Encode() + rest) == None
    ensures ContactOf(d) == None ==> Decode(IndexShapes, ApplyIndex, i, BytesField(4, d).Encode() + rest) == None
  {
    hide Decode, SourceOf, ResourcesOf, ExtensionOf, ListOf, ContactOf;
    if SourceOf(d) == None { FieldFails(ExtensionShapes, ApplyExtension, x, 8, d, rest); }
    if ResourcesOf(d) == None { FieldFails(ExtensionShapes, ApplyExtension, x, 3, d, rest); }
    if ExtensionOf(d) == None { FieldFails(ListShapes, ApplyList, l, 1, d, rest); }
    if ListOf(d) == None { FieldFails(IndexShapes, ApplyIndex, i, 101, d, rest); }
    if ContactOf(d) == None { FieldFails(IndexShapes, ApplyIndex, i, 4, d, rest); }
  }

  // ---------------------------------------------------------------- concatenation

  /** An index followed by more input goes on being read from what it was. */
  lemma IndexConcat(a: Bytes, b: Bytes)
    requires IndexOf(a).Some?
    ensures IndexOf(a + b) == Decode(IndexShapes, ApplyIndex, IndexOf(a).value, b)
  {
    DecodeConcat(IndexShapes, ApplyIndex, NO_INDEX, a, b);
  }

  /** Extension lists append. */
  lemma {:induction false} ListsAppend(l: seq<Extension>, b: Bytes)
    ensures match ListOf(b)
            case Some(m) => Decode(ListShapes, ApplyList, l, b) == Some(l + m)
            case None => Decode(ListShapes, ApplyList, l, b) == None
  {
    FromEmpty(l, [], b);
    assert l + [] == l;
  }

  lemma {:induction false} FromEmpty(l: seq<Extension>, k: seq<Extension>, b: Bytes)
    ensures match Decode(ListShapes, ApplyList, k, b)
            case Some(m) => Decode(ListShapes, ApplyList, l + k, b) == Some(l + m)
            case None => Decode(ListShapes, ApplyList, l + k, b) == None
    decreases |b|
  {
    hide ExtensionOf;
    if b == "" || Step(ListShapes, b).None? {
    } else {
      var (e, rest) := Step(ListShapes, b).value;
      if ApplyList(k, e).Some? {
        assert ApplyList(l + k, e) == Some(l + ApplyList(k, e).value) by {
          if e.Data? && ExtensionOf(e.data).Some? {
            assert l + k + [ExtensionOf(e.data).value] == l + (k + [ExtensionOf(e.data).value]);
          }
        }
        FromEmpty(l, ApplyList(k, e).value, rest);
      }
    }
  }

  /** Two lists, one after the other in the input, are one list. */
  lemma ListConcat(a: Bytes, b: Bytes)
    requires ListOf(a).Some? && ListOf(b).Some?
    ensures ListOf(a + b) == Some(ListOf(a).value + ListOf(b).value)
  {
    DecodeConcat(ListShapes, ApplyList, [], a, b);
    ListsAppend(ListOf(a).value, b);
  }

  /** A source followed by the encoding of another: the mirrors of both, and the last one wins elsewhere. */
  lemma SourceConcat(a: Bytes, b: Bytes, t: Source)
    requires SourceOf(a).Some? && IsSource(b, t)
    ensures SourceOf(a + b) == Some(MergeSource(SourceOf(a).value, t))
  {
    hide Decode, IsSource;
    DecodeConcat(SourceShapes, ApplySource, NO_SOURCE, a, b);
    SourceOver(b, SourceOf(a).value, t);
  }

  /** An extension followed by the encoding of another: the sources of both, and the last one wins elsewhere. */
  lemma ExtensionConcat(a: Bytes, b: Bytes, y: Extension)
    requires ExtensionOf(a).Some? && IsExtension(b, y)
    ensures ExtensionOf(a + b) == Some(MergeExtension(ExtensionOf(a).value, y))
  {
    hide Decode, IsExtension;
    DecodeConcat(ExtensionShapes, ApplyExtension, NO_EXTENSION, a, b);
    ExtensionOver(b, ExtensionOf(a).value, y);
  }

  /** The last one wins: an index followed by the encoding of another is read as the other's written
      strings and messages over its own. */
  lemma LastOneWins(a: Bytes, b: Bytes, y: Index)
    requires IndexOf(a).Some? && IsIndex(b, y)
    ensures IndexOf(a + b) == Some(Merge(IndexOf(a).value, y))
  {
    hide Decode, IsIndex;
    IndexConcat(a, b);
    IndexOver(b, IndexOf(a).value, y);
  }
}
