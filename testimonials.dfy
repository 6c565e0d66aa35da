/**
 * The pure rules of the testimonial routes: the unguessable link (16 random bytes
 * written as lower-case hex), the submission schema, and the public list of
 * published testimonials.
 */
module Testimonials {
  import opened Wrappers
  import opened Domain
  import opened Seqs
  import opened Text

  type Byte = b: int | 0 <= b < 256

  predicate IsHexDigit(c: char) {
    '0' <= c <= '9' || 'a' <= c <= 'f'
  }

  /** The lower-case hex digit of a nibble. */
  function HexDigit(n: int): (c: char)
    requires 0 <= n < 16
    ensures IsHexDigit(c)
  {
    if n < 10 then (48 + n) as char else (87 + n) as char
  }

  /** The nibble a lower-case hex digit stands for. */
  function DigitValue(c: char): (v: Option<int>)
    ensures v.Some? <==> IsHexDigit(c)
    ensures v.Some? ==> 0 <= v.value < 16
  {
    if '0' <= c <= '9' then Some(c as int - 48)
    else if 'a' <= c <= 'f' then Some(c as int - 87)
    else None
  }

  /** `Buffer.toString('hex')`: two lower-case digits per byte, high nibble first. */
  function HexEncode(bytes: seq<Byte>): (s: string)
    ensures |s| == 2 * |bytes|
    ensures forall i :: 0 <= i < |s| ==> IsHexDigit(s[i])
  {
    if bytes == [] then ""
    else [HexDigit(bytes[0] / 16), HexDigit(bytes[0] % 16)] + HexEncode(bytes[1..])
  }

  /** Reads a string of lower-case hex digit pairs back into bytes; None for anything else. */
  function HexDecode(s: string): (r: Option<seq<Byte>>)
    ensures r.Some? ==> 2 * |r.value| == |s|
  {
    if s == [] then Some([])
    else if |s| == 1 then None
    else
      match (DigitValue(s[0]), DigitValue(s[1]), HexDecode(s[2..]))
      case (Some(hi), Some(lo), Some(rest)) => Some([hi * 16 + lo] + rest)
      case _ => None
  }

  /** Hex encoding loses nothing: decoding gives the bytes back. */
  lemma {:induction false} HexRoundTrip(bytes: seq<Byte>)
    ensures HexDecode(HexEncode(bytes)) == Some(bytes)
  {
    if bytes != [] {
      var b := bytes[0];
      var s := HexEncode(bytes);
      HexRoundTrip(bytes[1..]);
      assert s[2..] == HexEncode(bytes[1..]);
      assert DigitValue(s[0]) == Some(b / 16);
      assert DigitValue(s[1]) == Some(b % 16);
      assert [b] + bytes[1..] == bytes;
    }
  }

  /**
   * `generateUniqueLink`: the 16 random bytes (taken as a parameter; the source draws
   * them from `crypto.randomBytes`) as a 32-character lower-case hex string.
   */
  function GenerateUniqueLink(random: seq<Byte>): (link: string)
    requires |random| == 16
    ensures |link| == 32
    ensures forall i :: 0 <= i < |link| ==> IsHexDigit(link[i])
    ensures HexDecode(link) == Some(random)
  {
    HexRoundTrip(random);
    HexEncode(random)
  }

  /** Different random bytes give different links. */
  lemma LinksInjective(r1: seq<Byte>, r2: seq<Byte>)
    requires |r1| == 16 && |r2| == 16
    requires r1 != r2
    ensures GenerateUniqueLink(r1) != GenerateUniqueLink(r2)
  {
  }

  /** The submission schema: an integer rating from 1 to 5 and a text of at least ten UTF-16 code units. */
  predicate ValidSubmission(rating: int, text: string) {
    1 <= rating <= 5 && Utf16Length(text) >= 10
  }

  /** The columns GET /testimonials/published selects. */
  datatype PublishedTestimonial = PublishedTestimonial(
    id: Id, clientName: string, text: string, rating: int, createdAt: nat)

  function Project(t: Testimonial): PublishedTestimonial {
    PublishedTestimonial(t.id, t.clientName, t.text, t.rating, t.createdAt)
  }

  predicate IsPublished(t: Testimonial) {
    t.status == Published
  }

  /** The `createdAt: 'desc'` order. */
  predicate NewerFirst(a: Testimonial, b: Testimonial) {
    a.createdAt >= b.createdAt
  }

  lemma NewerFirstIsTotalPreorder()
    ensures TotalPreorder(NewerFirst)
  {
  }

  /** The published testimonials, newest first. */
  function NewestPublished(rows: seq<Testimonial>): (ordered: seq<Testimonial>)
    ensures forall t :: t in ordered <==> t in rows && IsPublished(t)
    ensures forall i, j :: 0 <= i < j < |ordered| ==> ordered[i].createdAt >= ordered[j].createdAt
    ensures |ordered| == |Filter(rows, IsPublished)|
    ensures Distinct(rows) ==> Distinct(ordered)
  {
    var published := Filter(rows, IsPublished);
    NewerFirstIsTotalPreorder();
    SortKeeps(published, NewerFirst);
    assert Distinct(rows) ==> Distinct(published) by {
      if Distinct(rows) { FilterDistinct(rows, IsPublished); }
    }
    var ordered := Sort(published, NewerFirst);
    assert |ordered| == |multiset(ordered)| == |published|;
    assert SortedBy(ordered, NewerFirst);
    ordered
  }

  /** GET /testimonials/published: every published testimonial and nothing else, one entry each, newest first,
   * projected to its public columns. */
  function PublishedList(rows: seq<Testimonial>): (r: seq<PublishedTestimonial>)
    ensures forall t :: t in rows && IsPublished(t) ==> Project(t) in r
    ensures forall i :: 0 <= i < |r| ==> exists t :: t in rows && IsPublished(t) && Project(t) == r[i]
    ensures forall i, j :: 0 <= i < j < |r| ==> r[i].createdAt >= r[j].createdAt
    ensures |r| == |Filter(rows, IsPublished)|
    ensures |r| == |NewestPublished(rows)|
    ensures forall i :: 0 <= i < |r| ==> r[i] == Project(NewestPublished(rows)[i])
  {
    var ordered := NewestPublished(rows);
    var r := ProjectAll(ordered);
    ProjectionShowsPublished(rows, ordered, r);
    r
  }

  /** The public projection of each row, in order. */
  function ProjectAll(rows: seq<Testimonial>): (r: seq<PublishedTestimonial>)
    ensures |r| == |rows|
    ensures forall i :: 0 <= i < |r| ==> r[i] == Project(rows[i])
  {
    if rows == [] then [] else [Project(rows[0])] + ProjectAll(rows[1..])
  }

  /** Projecting the newest-first published rows one by one shows each of them once, in the same order. */
  lemma ProjectionShowsPublished(rows: seq<Testimonial>, ordered: seq<Testimonial>, r: seq<PublishedTestimonial>)
    requires ordered == NewestPublished(rows)
    requires |r| == |ordered| && forall i :: 0 <= i < |r| ==> r[i] == Project(ordered[i])
    ensures forall t :: t in rows && IsPublished(t) ==> Project(t) in r
    ensures forall i :: 0 <= i < |r| ==> exists t :: t in rows && IsPublished(t) && Project(t) == r[i]
    ensures forall i, j :: 0 <= i < j < |r| ==> r[i].createdAt >= r[j].createdAt
  {
    forall i | 0 <= i < |r| ensures exists t :: t in rows && IsPublished(t) && Project(t) == r[i] {
      var t := ordered[i];
      assert t in ordered;
      assert t in rows && IsPublished(t);
    }
    forall t | t in rows && IsPublished(t) ensures Project(t) in r {
      var i :| 0 <= i < |ordered| && ordered[i] == t;
      assert r[i] == Project(t);
    }
    forall i, j | 0 <= i < j < |r| ensures r[i].createdAt >= r[j].createdAt {
      assert r[i] == Project(ordered[i]) && r[j] == Project(ordered[j]);
    }
  }

  /** What GET /testimonials/public/:uniqueLink shows the client before they write. */
  datatype FormView = FormView(clientName: string, serviceName: string, status: TestimonialStatus)
}
