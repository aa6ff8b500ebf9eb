/** URL handles derived from product titles. */
module Handles {
  import opened Strings

  /** A character a handle may hold. */
  predicate HandleChar(c: char) {
    'a' <= c <= 'z' || '0' <= c <= '9' || c == '-'
  }

  /** `re.sub(r'[^a-z0-9\s-]', '', s)` */
  function KeepHandleChars(s: string): (r: string)
    ensures forall c | c in r :: c in s && (HandleChar(c) || IsSpace(c))
  {
    if s == [] then []
    else (if HandleChar(s[0]) || IsSpace(s[0]) then [s[0]] else []) + KeepHandleChars(s[1..])
  }

  /** `re.sub(r'\s+', '-', s)`: every maximal run of whitespace becomes one '-'. */
  function DashSpaces(s: string): (r: string)
    ensures forall c | c in r :: c == '-' || (c in s && !IsSpace(c))
    decreases |s|
  {
    if s == [] then []
    else if IsSpace(s[0]) then "-" + DashSpaces(StripLeft(s))
    else [s[0]] + DashSpaces(s[1..])
  }

  /** The handle before truncation. */
  function FullHandle(title: string): string
  {
    StripChar(DashSpaces(KeepHandleChars(Lower(title))), '-')
  }

  /** The handle of a title, cut to `limit` characters. */
  function Handle(title: string, limit: nat): string
  {
    SliceTo(FullHandle(title), limit)
  }

  /** A handle holds only lower-case letters, digits and '-', is at most `limit`
      long and is a prefix of the full handle, which neither starts nor ends with
      '-'; a short enough full handle is kept whole. */
  lemma HandleShape(title: string, limit: nat)
    ensures forall c | c in Handle(title, limit) :: HandleChar(c)
    ensures |Handle(title, limit)| <= limit
    ensures Handle(title, limit) == FullHandle(title)[..|Handle(title, limit)|]
    ensures |FullHandle(title)| > 0 ==> FullHandle(title)[0] != '-' && FullHandle(title)[|FullHandle(title)| - 1] != '-'
    ensures |Handle(title, limit)| > 0 ==> Handle(title, limit)[0] != '-'
    ensures |FullHandle(title)| <= limit ==> Handle(title, limit) == FullHandle(title)
  {
    var h := Handle(title, limit);
    var f := FullHandle(title);
    forall c | c in h ensures HandleChar(c) {
      assert c in f;
    }
    if |h| > 0 {
      assert h[0] == f[0];
    }
  }

  /** A string that already has the shape of a handle is its own full handle, so
      deriving a handle from a handle changes nothing. */
  lemma {:induction false} FullHandleOfHandle(h: string)
    requires forall c | c in h :: HandleChar(c)
    requires |h| > 0 ==> h[0] != '-' && h[|h| - 1] != '-'
    ensures FullHandle(h) == h
  {
    assert forall i | 0 <= i < |h| :: h[i] in h;
    assert Lower(h) == h;
    KeepAll(h);
    DashNone(h);
  }

  lemma {:induction false} KeepAll(s: string)
    requires forall c | c in s :: HandleChar(c)
    ensures KeepHandleChars(s) == s
  {
    if s != [] {
      assert s[0] in s;
      assert forall c | c in s[1..] :: c in s;
      KeepAll(s[1..]);
    }
  }

  lemma {:induction false} DashNone(s: string)
    requires forall c | c in s :: HandleChar(c)
    ensures DashSpaces(s) == s
  {
    if s != [] {
      assert s[0] in s;
      assert forall c | c in s[1..] :: c in s;
      DashNone(s[1..]);
    }
  }

  /** The full handle of a full handle is itself. */
  lemma FullHandleIdempotent(title: string)
    ensures FullHandle(FullHandle(title)) == FullHandle(title)
  {
    HandleShape(title, |FullHandle(title)|);
    FullHandleOfHandle(FullHandle(title));
  }

  /** The title "Widget" gets the handle "widget". */
  lemma HandleExample()
    ensures Handle("Widget", 100) == "widget"
  {
    var w := "widget";
    assert Lower("Widget") == w;
    assert forall c | c in w :: HandleChar(c);
    FullHandleOfHandle(w);
  }
}
