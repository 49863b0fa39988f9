/** The messages of a repository index (`backend/internal/repository/protobuf.go`,
    `backend/internal/repository/types.go`). */
module RepoIndex {
  import opened Text
  import opened Wire

  datatype Contact = Contact(website: string, discord: string)

  datatype Resources = Resources(apkUrl: string, iconUrl: string, jarUrl: string)

  datatype Source = Source(id: int, name: string, language: string, homeUrl: string, mirrorUrls: seq<string>,
                           message: string)

  datatype Extension = Extension(name: string, packageName: string, resources: Resources, extensionLib: string,
                                 versionCode: int, versionName: string, contentWarning: int, sources: seq<Source>)

  datatype Index = Index(name: string, badgeLabel: string, signingKey: string, contact: Contact,
                         extensionList: Option<seq<Extension>>, extensionListUrl: string)

  const NO_CONTACT := Contact("", "")
  const NO_RESOURCES := Resources("", "", "")
  const NO_SOURCE := Source(0, "", "", "", [], "")
  const NO_EXTENSION := Extension("", "", NO_RESOURCES, "", 0, "", 0, [])
  const NO_INDEX := Index("", "", "", NO_CONTACT, None, "")

  /** Go's conversions of a `uint64`. */
  function ToInt64(v: nat): int { Wrap64(v) }

  function ToInt32(v: nat): int { Wrap32(v) }

  // ---------------------------------------------------------------- contact

  function ContactShapes(num: nat): Shape { if num == 1 || num == 2 then AsBytes else Unread }

  function ApplyContact(c: Contact, e: Event): Option<Contact> {
    match e
    case Data(num, d) => Some(if num == 1 then c.(website := d) else c.(discord := d))
    case _ => Some(c)
  }

  function ContactOf(b: Bytes): Option<Contact> { Decode(ContactShapes, ApplyContact, NO_CONTACT, b) }

  method DecodeContact(input: Bytes) returns (r: Option<Contact>)
    ensures r == ContactOf(input)
  {
    var c, b := NO_CONTACT, input;
    while |b| > 0
      invariant Decode(ContactShapes, ApplyContact, c, b) == ContactOf(input)
      decreases |b|
    {
      var tag := ConsumeTag(b);
      if tag.None? { return None; }
      var ((num, typ), rest) := tag.value;
      b := rest;
      if num == 1 || num == 2 {
        var v := ConsumeBytes(b);
        if v.None? { return None; }
        b := v.value.1;
        if num == 1 { c := c.(website := v.value.0); } else { c := c.(discord := v.value.0); }
      } else {
        var n := SkipField(b, typ);
        if n.None? { return None; }
        b := n.value;
      }
    }
    return Some(c);
  }

  // ---------------------------------------------------------------- resources

  function ResourcesShapes(num: nat): Shape { if num == 1 || num == 2 || num == 501 then AsBytes else Unread }

  function ApplyResources(r: Resources, e: Event): Option<Resources> {
    match e
    case Data(num, d) =>
      Some(if num == 1 then r.(apkUrl := d) else if num == 2 then r.(iconUrl := d) else r.(jarUrl := d))
    case _ => Some(r)
  }

  function ResourcesOf(b: Bytes): Option<Resources> { Decode(ResourcesShapes, ApplyResources, NO_RESOURCES, b) }

  method DecodeResources(input: Bytes) returns (r: Option<Resources>)
    ensures r == ResourcesOf(input)
  {
    var s, b := NO_RESOURCES, input;
    while |b| > 0
      invariant Decode(ResourcesShapes, ApplyResources, s, b) == ResourcesOf(input)
      decreases |b|
    {
      var tag := ConsumeTag(b);
      if tag.None? { return None; }
      var ((num, typ), rest) := tag.value;
      b := rest;
      if num == 1 || num == 2 || num == 501 {
        var v := ConsumeBytes(b);
        if v.None? { return None; }
        b := v.value.1;
        if num == 1 {
          s := s.(apkUrl := v.value.0);
        } else if num == 2 {
          s := s.(iconUrl := v.value.0);
        } else {
          s := s.(jarUrl := v.value.0);
        }
      } else {
        var n := SkipField(b, typ);
        if n.None? { return None; }
        b := n.value;
      }
    }
    return Some(s);
  }

  // ---------------------------------------------------------------- source

  function SourceShapes(num: nat): Shape {
    if num == 1 then AsVarint
    else if num == 2 || num == 3 || num == 4 || num == 5 || num == 7 then AsBytes
    else Unread
  }

  function ApplySource(s: Source, e: Event): Option<Source> {
    match e
    case Number(_, v) => Some(s.(id := ToInt64(v)))
    case Data(num, d) =>
      Some(if num == 2 then s.(name := d)
           else if num == 3 then s.(language := d)
           else if num == 4 then s.(homeUrl := d)
           else if num == 5 then s.(mirrorUrls := s.mirrorUrls + [d])
           else s.(message := d))
    case Skipped => Some(s)
  }

  function SourceOf(b: Bytes): Option<Source> { Decode(SourceShapes, ApplySource, NO_SOURCE, b) }

  method DecodeSource(input: Bytes) returns (r: Option<Source>)
    ensures r == SourceOf(input)
  {
    var s, b := NO_SOURCE, input;
    while |b| > 0
      invariant Decode(SourceShapes, ApplySource, s, b) == SourceOf(input)
      decreases |b|
    {
      var tag := ConsumeTag(b);
      if tag.None? { return None; }
      var ((num, typ), rest) := tag.value;
      b := rest;
      if num == 1 {
        var v := ConsumeVarint(b, 0);
        if v.None? { return None; }
        b := v.value.1;
        s := s.(id := ToInt64(v.value.0));
      } else if num == 2 || num == 3 || num == 4 || num == 7 {
        var v := ConsumeBytes(b);
        if v.None? { return None; }
        b := v.value.1;
        if num == 2 {
          s := s.(name := v.value.0);
        } else if num == 3 {
          s := s.(language := v.value.0);
        } else if num == 4 {
          s := s.(homeUrl := v.value.0);
        } else {
          s := s.(message := v.value.0);
        }
      } else if num == 5 {
        var v := ConsumeBytes(b);
        if v.None? { return None; }
        b := v.value.1;
        s := s.(mirrorUrls := s.mirrorUrls + [v.value.0]);
      } else {
        var n := SkipField(b, typ);
        if n.None? { return None; }
        b := n.value;
      }
    }
    return Some(s);
  }

  // ---------------------------------------------------------------- extension

  function ExtensionShapes(num: nat): Shape {
    if num == 5 || num == 7 then AsVarint
    else if 1 <= num <= 8 then AsBytes
    else Unread
  }

  function ApplyExtension(x: Extension, e: Event): Option<Extension> {
    match e
    case Number(num, v) =>
      Some(if num == 5 then x.(versionCode := ToInt64(v)) else x.(contentWarning := ToInt32(v)))
    case Data(num, d) =>
      if num == 3 then (match ResourcesOf(d) case None => None case Some(r) => Some(x.(resources := r)))
      else if num == 8 then (match SourceOf(d) case None => None case Some(s) => Some(x.(sources := x.sources + [s])))
      else
        Some(if num == 1 then x.(name := d)
             else if num == 2 then x.(packageName := d)
             else if num == 4 then x.(extensionLib := d)
             else x.(versionName := d))
    case Skipped => Some(x)
  }

  function ExtensionOf(b: Bytes): Option<Extension> { Decode(ExtensionShapes, ApplyExtension, NO_EXTENSION, b) }

  method DecodeExtension(input: Bytes) returns (r: Option<Extension>)
    ensures r == ExtensionOf(input)
  {
    hide SourceOf, ResourcesOf, ConsumeTag, ConsumeBytes, ConsumeVarint, SkipField, ToInt64, ToInt32;
    var x, b := NO_EXTENSION, input;
    while |b| > 0
      invariant Decode(ExtensionShapes, ApplyExtension, x, b) == ExtensionOf(input)
      decreases |b|
    {
      var tag := ConsumeTag(b);
      if tag.None? { return None; }
      var ((num, typ), rest) := tag.value;
      b := rest;
      if num == 1 || num == 2 || num == 4 || num == 6 {
        var v := ConsumeBytes(b);
        if v.None? { return None; }
        b := v.value.1;
        if num == 1 {
          x := x.(name := v.value.0);
        } else if num == 2 {
          x := x.(packageName := v.value.0);
        } else if num == 4 {
          x := x.(extensionLib := v.value.0);
        } else {
          x := x.(versionName := v.value.0);
        }
      } else if num == 3 {
        var v := ConsumeBytes(b);
        if v.None? { return None; }
        b := v.value.1;
        var res := DecodeResources(v.value.0);
        if res.None? { return None; }
        x := x.(resources := res.value);
      } else if num == 5 {
        var v := ConsumeVarint(b, 0);
        if v.None? { return None; }
        b := v.value.1;
        x := x.(versionCode := ToInt64(v.value.0));
      } else if num == 7 {
        var v := ConsumeVarint(b, 0);
        if v.None? { return None; }
        b := v.value.1;
        x := x.(contentWarning := ToInt32(v.value.0));
      } else if num == 8 {
        var v := ConsumeBytes(b);
        if v.None? { return None; }
        b := v.value.1;
        var s := DecodeSource(v.value.0);
        if s.None? { return None; }
        x := x.(sources := x.sources + [s.value]);
      } else {
        var n := SkipField(b, typ);
        if n.None? { return None; }
        b := n.value;
      }
    }
    return Some(x);
  }

  // ---------------------------------------------------------------- extension list

  function ListShapes(num: nat): Shape { if num == 1 then AsBytes else Unread }

  function ApplyList(l: seq<Extension>, e: Event): Option<seq<Extension>> {
    match e
    case Data(_, d) => (match ExtensionOf(d) case None => None case Some(x) => Some(l + [x]))
    case _ => Some(l)
  }

  function ListOf(b: Bytes): Option<seq<Extension>> { Decode(ListShapes, ApplyList, [], b) }

  method DecodeExtensionList(input: Bytes) returns (r: Option<seq<Extension>>)
    ensures r == ListOf(input)
  {
    hide ExtensionOf;
    var l, b := [], input;
    while |b| > 0
      invariant Decode(ListShapes, ApplyList, l, b) == ListOf(input)
      decreases |b|
    {
      var tag := ConsumeTag(b);
      if tag.None? { return None; }
      var ((num, typ), rest) := tag.value;
      b := rest;
      if num == 1 {
        var v := ConsumeBytes(b);
        if v.None? { return None; }
        b := v.value.1;
        var x := DecodeExtension(v.value.0);
        if x.None? { return None; }
        l := l + [x.value];
        continue;
      }
      var n := SkipField(b, typ);
      if n.None? { return None; }
      b := n.value;
    }
    return Some(l);
  }

  // ---------------------------------------------------------------- index

  function IndexShapes(num: nat): Shape { if 1 <= num <= 4 || num == 101 || num == 102 then AsBytes else Unread }

  function ApplyIndex(x: Index, e: Event): Option<Index> {
    match e
    case Data(num, d) =>
      if num == 4 then (match ContactOf(d) case None => None case Some(c) => Some(x.(contact := c)))
      else if num == 101 then (match ListOf(d) case None => None case Some(l) => Some(x.(extensionList := Some(l))))
      else
        Some(if num == 1 then x.(name := d)
             else if num == 2 then x.(badgeLabel := d)
             else if num == 3 then x.(signingKey := d)
             else x.(extensionListUrl := d))
    case _ => Some(x)
  }

  function IndexOf(b: Bytes): Option<Index> { Decode(IndexShapes, ApplyIndex, NO_INDEX, b) }

  method DecodeRepoIndex(input: Bytes) returns (r: Option<Index>)
    ensures r == IndexOf(input)
  {
    hide ContactOf, ListOf;
    var x, b := NO_INDEX, input;
    while |b| > 0
      invariant Decode(IndexShapes, ApplyIndex, x, b) == IndexOf(input)
      decreases |b|
    {
      var tag := ConsumeTag(b);
      if tag.None? { return None; }
      var ((num, typ), rest) := tag.value;
      b := rest;
      if num == 1 || num == 2 || num == 3 || num == 102 {
        var v := ConsumeBytes(b);
        if v.None? { return None; }
        b := v.value.1;
        if num == 1 {
          x := x.(name := v.value.0);
        } else if num == 2 {
          x := x.(badgeLabel := v.value.0);
        } else if num == 3 {
          x := x.(signingKey := v.value.0);
        } else {
          x := x.(extensionListUrl := v.value.0);
        }
      } else if num == 4 {
        var v := ConsumeBytes(b);
        if v.None? { return None; }
        b := v.value.1;
        var c := DecodeContact(v.value.0);
        if c.None? { return None; }
        x := x.(contact := c.value);
      } else if num == 101 {
        var v := ConsumeBytes(b);
        if v.None? { return None; }
        b := v.value.1;
        var l := DecodeExtensionList(v.value.0);
        if l.None? { return None; }
        x := x.(extensionList := Some(l.value));
      } else {
        var n := SkipField(b, typ);
        if n.None? { return None; }
        b := n.value;
      }
    }
    return Some(x);
  }
}
