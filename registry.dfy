/**
 * The rule registry of a `File` entity: per-property allow-lists and
 * deny-lists of extensions, and the one alternate-name property.
 * A property that has never been given a list has no entry in the map,
 * which is what PHP's `isset` on the list then reports.
 */
module Registry {
  import opened Outcomes

  type Lists = map<string, seq<string>>

  /** The rules that the validator and the placement step read. */
  datatype Rules = Rules(allow: Lists, deny: Lists, altName: Option<string>)

  /** The list registered for `p`, or an empty one. */
  function ListFor(m: Lists, p: string): seq<string> {
    if p in m then m[p] else []
  }

  /** `$list[$property][] = $ext`: one more entry for `p`, all other lists as they were. */
  function Append(m: Lists, p: string, ext: string): (r: Lists)
    ensures r.Keys == m.Keys + {p}
    ensures r[p] == ListFor(m, p) + [ext]
    ensures forall q :: q in m && q != p ==> r[q] == m[q]
  {
    m[p := ListFor(m, p) + [ext]]
  }

  /** `$list[$property] = $extensions`: the list for `p` replaced wholesale. */
  function Replace(m: Lists, p: string, exts: seq<string>): (r: Lists)
    ensures r.Keys == m.Keys + {p}
    ensures r[p] == exts
    ensures forall q :: q in m && q != p ==> r[q] == m[q]
  {
    m[p := exts]
  }

  /** Replacing a list discards whatever was appended to it before. */
  lemma ReplaceDiscardsAppend(m: Lists, p: string, ext: string, exts: seq<string>)
    ensures Replace(Append(m, p, ext), p, exts) == Replace(m, p, exts)
  {
    assert Replace(Append(m, p, ext), p, exts).Keys == Replace(m, p, exts).Keys;
  }

  /** Appends keep their order. */
  lemma AppendTwice(m: Lists, p: string, x: string, y: string)
    ensures ListFor(Append(Append(m, p, x), p, y), p) == ListFor(m, p) + [x, y]
  {
  }

  /** Appends to different properties do not interfere. */
  lemma AppendsCommute(m: Lists, p: string, q: string, x: string, y: string)
    requires p != q
    ensures Append(Append(m, p, x), q, y) == Append(Append(m, q, y), p, x)
  {
    assert Append(Append(m, p, x), q, y).Keys == Append(Append(m, q, y), p, x).Keys;
  }
}
