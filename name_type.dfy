/**
 * parseNameAndType: splits a partition's plist name, of the form
 * "Apple (Apple_partition_map : 1)", into the partition name and its
 * type. The source writes its two results through reference parameters;
 * here they come in as `name0`/`type0` and go out in the result, so that
 * what a failing call leaves behind is visible.
 */
module NameType {
  import opened Wrappers
  import opened Ints
  import Text

  datatype NameAndType = NameAndType(ok: bool, name: string, partType: string)

  /** `(` occurs at p, and nowhere before. */
  predicate FirstParen(s: string, p: nat)
  {
    p < |s| && s[p] == '(' && forall j :: 0 <= j < p ==> s[j] != '('
  }

  /** `:` occurs at q, after p, and nowhere between. */
  predicate FirstColonAfter(s: string, p: nat, q: nat)
  {
    p < q < |s| && s[q] == ':' && forall j :: p <= j < q ==> s[j] != ':'
  }

  /** At most one trailing space removed. */
  function TrimOneSpace(t: string): (r: string)
    ensures r == t || (t == r + " ")
  {
    if t != [] && t[|t| - 1] == ' ' then t[..|t| - 1] else t
  }

  /** The rfind/resize step: drops the last character when the last space is there. */
  function RemoveEndSpace(t: string): (r: string)
    requires |t| < TwoTo64
    ensures r == TrimOneSpace(t)
  {
    var space := Text.RFind(t, ' ');
    if space.Some? && space.value == Text.SizeSub(|t|, 1) then t[..|t| - 1] else t
  }

  function ParseNameAndType(s: string, name0: string, type0: string): (r: NameAndType)
    requires |s| < TwoTo64
    ensures r.ok <==> exists p, q :: 0 <= p < q < |s| && s[p] == '(' && s[q] == ':'
    ensures !r.ok ==> r.partType == type0
  {
    match Text.Find(s, '(', 0)
    case None => NameAndType(false, name0, type0)
    case Some(paren) =>
      // paren - 1 is a size_t: when paren is 0 it wraps to npos, the rest of the string
      var name := Text.Substr(s, 0, Text.SizeSub(paren, 1));
      match Text.Find(s, ':', paren)
      case None => NameAndType(false, name, type0)
      case Some(colon) =>
        var t := Text.Substr(s, paren + 1, Text.SizeSub(Text.SizeSub(colon, paren), 1));
        assert s[paren] == '(' && s[colon] == ':' && paren < colon;
        NameAndType(true, name, RemoveEndSpace(t))
  }

  /** Without a `(`, nothing is written and the parse fails. */
  lemma NoParen(s: string, name0: string, type0: string)
    requires |s| < TwoTo64
    requires forall j :: 0 <= j < |s| ==> s[j] != '('
    ensures ParseNameAndType(s, name0, type0) == NameAndType(false, name0, type0)
  {
  }

  /**
   * With a first `(` at p, the name is written even if the parse then fails:
   * the p - 1 characters before it, so exactly one character before the
   * `(` is dropped whatever it is, or the whole string when p is 0.
   */
  lemma NameBeforeParen(s: string, name0: string, type0: string, p: nat)
    requires |s| < TwoTo64 && FirstParen(s, p)
    ensures ParseNameAndType(s, name0, type0).name == if p == 0 then s else s[..p - 1]
  {
    assert Text.Find(s, '(', 0) == Some(p);
  }

  /**
   * With a first `(` at p and a first `:` after it at q, the type is the text
   * strictly between them less one trailing space.
   */
  lemma TypeBetween(s: string, name0: string, type0: string, p: nat, q: nat)
    requires |s| < TwoTo64 && FirstParen(s, p) && FirstColonAfter(s, p, q)
    ensures ParseNameAndType(s, name0, type0).ok
    ensures ParseNameAndType(s, name0, type0).partType == TrimOneSpace(s[p + 1..q])
  {
    assert Text.Find(s, '(', 0) == Some(p);
    assert Text.Find(s, ':', p) == Some(q);
    var len := Text.SizeSub(Text.SizeSub(q, p), 1);
    assert len == q - p - 1;
    var t := Text.Substr(s, p + 1, len);
    assert t == s[p + 1..q];
    assert ParseNameAndType(s, name0, type0) == NameAndType(true, ParseNameAndType(s, name0, type0).name, RemoveEndSpace(t));
  }

  /** A `(` with no `:` after it: the parse fails, the name is written and the type is not. */
  lemma NoColon(s: string, name0: string, type0: string, p: nat)
    requires |s| < TwoTo64 && FirstParen(s, p)
    requires forall j :: p <= j < |s| ==> s[j] != ':'
    ensures !ParseNameAndType(s, name0, type0).ok
    ensures ParseNameAndType(s, name0, type0).partType == type0
    ensures ParseNameAndType(s, name0, type0).name == if p == 0 then s else s[..p - 1]
  {
    NameBeforeParen(s, name0, type0, p);
  }

  /**
   * Parsing undoes the format the source documents: a name without `(`, then
   * " (", a type without `:`, then " : " and anything at all, parses back to
   * that name and type.
   */
  lemma FormatRoundTrip(name: string, partType: string, rest: string, name0: string, type0: string)
    requires forall j :: 0 <= j < |name| ==> name[j] != '('
    requires forall j :: 0 <= j < |partType| ==> partType[j] != ':'
    requires |name + " (" + partType + " : " + rest| < TwoTo64
    ensures ParseNameAndType(name + " (" + partType + " : " + rest, name0, type0)
         == NameAndType(true, name, partType)
  {
    var s := name + " (" + partType + " : " + rest;
    var p, q := |name| + 1, |name| + 2 + |partType| + 1;
    assert s[..p - 1] == name;
    assert s[p + 1..q] == partType + " ";
    assert FirstParen(s, p);
    assert FirstColonAfter(s, p, q);
    NameBeforeParen(s, name0, type0, p);
    TypeBetween(s, name0, type0, p, q);
  }

  lemma AppleLiteral()
    ensures "Apple (Apple_partition_map : 1)" == "Apple" + " (" + "Apple_partition_map" + " : " + "1)"
  {
  }

  /** The example of the source comment. */
  lemma AppleExample(name0: string, type0: string)
    ensures ParseNameAndType("Apple (Apple_partition_map : 1)", name0, type0)
         == NameAndType(true, "Apple", "Apple_partition_map")
  {
    AppleLiteral();
    FormatRoundTrip("Apple", "Apple_partition_map", "1)", name0, type0);
  }
}
