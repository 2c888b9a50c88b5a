/**
 * MEMBER_INFO and getMemberInfo: the colour and symbol of each group
 * member, with a default entry for unknown names and multi-member posts.
 */
module Registry {
  import opened Wrappers
  import opened Strings

  datatype MemberInfo = MemberInfo(color: string, symbol: string)

  const DefaultInfo := MemberInfo("orange", "\U{1F52E}")

  /** The entries MEMBER_INFO itself defines, the "Default" entry included. */
  function OwnEntry(name: string): Option<MemberInfo> {
    if name == "Karina" then Some(MemberInfo("blue", "\U{1F499}"))
    else if name == "Giselle" then Some(MemberInfo("pink", "\U{1F319}"))
    else if name == "Winter" then Some(MemberInfo("white", "\U{2B50}"))
    else if name == "Ningning" then Some(MemberInfo("purple", "\U{1F98B}"))
    else if name == "Default" then Some(DefaultInfo)
    else None
  }

  /** The four members with an entry of their own. */
  predicate IsGroupMember(name: string) {
    name == "Karina" || name == "Giselle" || name == "Winter" || name == "Ningning"
  }

  /**
   * The entry of a name in MEMBER_INFO, falling back to the default entry,
   * where only the keys MEMBER_INFO itself defines are looked at.
   */
  function InfoFor(name: string): (info: MemberInfo)
    ensures info != DefaultInfo <==> IsGroupMember(name)
    ensures info.symbol != "" && ' ' !in info.symbol
  {
    match OwnEntry(name)
    case Some(entry) => entry
    case None => DefaultInfo
  }

  /**
   * getMemberInfo: a post of a single member whose trimmed name has an entry
   * gets that member's info; every other post gets the default.
   */
  function GetMemberInfo(members: seq<string>): (info: MemberInfo)
    ensures info != DefaultInfo <==> |members| == 1 && IsGroupMember(Trim(members[0]))
    ensures |members| == 1 ==> info == InfoFor(Trim(members[0]))
    ensures |members| != 1 ==> info == DefaultInfo
  {
    if |members| == 1 then InfoFor(Trim(members[0])) else DefaultInfo
  }

  /** The properties every plain JavaScript object inherits from Object.prototype. */
  const ObjectPrototypeNames: set<string> := {
    "constructor", "hasOwnProperty", "isPrototypeOf", "propertyIsEnumerable",
    "toLocaleString", "toString", "valueOf", "__proto__",
    "__defineGetter__", "__defineSetter__", "__lookupGetter__", "__lookupSetter__"
  }

  /** No inherited name is one of MEMBER_INFO's own keys, and none has white space at its ends. */
  lemma PrototypeNamesApart(key: string)
    ensures key in ObjectPrototypeNames ==> OwnEntry(key).None? && Trimmed(key)
  {
    if key !in ObjectPrototypeNames {
    } else if key == "constructor" {
    } else if key == "hasOwnProperty" {
    } else if key == "isPrototypeOf" {
    } else if key == "propertyIsEnumerable" {
    } else if key == "toLocaleString" {
    } else if key == "toString" {
    } else if key == "valueOf" {
    } else if key == "__proto__" {
    } else if key == "__defineGetter__" {
    } else if key == "__defineSetter__" {
    } else if key == "__lookupGetter__" {
    } else {
      assert key == "__lookupSetter__";
    }
  }

  /** What `MEMBER_INFO[key]` evaluates to in JavaScript. */
  datatype PropertyValue =
    | Entry(info: MemberInfo)  // one of MEMBER_INFO's own entries
    | Inherited(key: string)   // a function or object from Object.prototype
    | Undefined

  function PropertyLookup(key: string): (v: PropertyValue)
    ensures v.Entry? <==> OwnEntry(key).Some?
    ensures v.Inherited? <==> key in ObjectPrototypeNames
    ensures v.Undefined? <==> OwnEntry(key).None? && key !in ObjectPrototypeNames
  {
    PrototypeNamesApart(key);
    match OwnEntry(key)
    case Some(entry) => Entry(entry)
    case None => if key in ObjectPrototypeNames then Inherited(key) else Undefined
  }

  /**
   * getMemberInfo as written: the property lookup walks the prototype chain,
   * and the fallback to the default entry only replaces an undefined value
   * (functions and objects are truthy).
   * Wherever it yields an info record, it is the one GetMemberInfo gives.
   */
  function GetMemberInfoAsWritten(members: seq<string>): (v: PropertyValue)
    ensures v.Entry? ==> v.info == GetMemberInfo(members)
    ensures v.Inherited? <==> |members| == 1 && Trim(members[0]) in ObjectPrototypeNames
    ensures !v.Undefined?
  {
    if |members| == 1 then
      var key := Trim(members[0]);
      PrototypeNamesApart(key);
      match PropertyLookup(Trim(members[0]))
      case Undefined => Entry(DefaultInfo)
      case found => found
    else Entry(DefaultInfo)
  }

  /**
   * What a card's symbol line holds for a lookup result: the entry's symbol.
   * An inherited function or object has no symbol property, and joining
   * the symbols with spaces writes such an undefined element as the empty string.
   */
  function RenderedSymbol(v: PropertyValue): string {
    match v
    case Entry(info) => info.symbol
    case _ => ""
  }

  /**
   * A post by a member named "toString" (or any other Object.prototype
   * name) gets no info record as written, and its card shows no symbol
   * where the default symbol was meant.
   */
  lemma AsWrittenPrototypeName(name: string)
    requires name in ObjectPrototypeNames
    ensures GetMemberInfoAsWritten([name]).Inherited?
    ensures RenderedSymbol(GetMemberInfoAsWritten([name])) == ""
    ensures GetMemberInfo([name]) == DefaultInfo
  {
    PrototypeNamesApart(name);
    UnknownTrimmedName(name);
    TrimOfTrimmed(name);
    assert [name][0] == name;
  }

  lemma UnknownTrimmedName(name: string)
    requires OwnEntry(name).None? && Trimmed(name)
    ensures GetMemberInfo([name]) == DefaultInfo
  {
    TrimOfTrimmed(name);
    var members := [name];
    assert Trim(members[0]) == name;
  }
}
