/** The bracket-tag line format of the chat server: pulling a handle out of
    the first `[` ... `]` of a line (`get_name`, server.py:95-104), making up
    guest handles, and rewriting the tag of a line with the stored handle
    (`fix_msg`, server.py:106-110). */
module Protocol {
  import opened PyText

  /** The Python exceptions the server code can raise. */
  datatype PyError = ValueError | KeyError | NameError

  datatype Result<T> = Ok(value: T) | Err(error: PyError)

  /** `s.index(c)`: like `s.find(c)`, but a missing character raises
      `ValueError`. */
  function Index(s: string, c: char): (r: Result<nat>)
    ensures r.Ok? <==> c in s
    ensures r.Ok? ==> r.value < |s| && s[r.value] == c && c !in s[..r.value]
    ensures r.Err? ==> r.error == ValueError
  {
    var k := Find(s, c);
    if k == -1 then Err(ValueError) else Ok(k)
  }

  /** `k` is where `c` first occurs in `s`. */
  lemma FindAt(s: string, c: char, k: nat)
    requires k < |s| && s[k] == c && c !in s[..k]
    ensures Find(s, c) == k
  {
    assert c in s;
  }

  /** The name part of `get_name`: the text between the first `[` and the
      first `]`, by Python's slice rules, with white space stripped. A
      missing `[` starts the slice at 0; a missing `]` ends it one before
      the end of the line. */
  function BracketText(s: string): (r: string)
    ensures ']' !in r
    ensures IsStripped(r)
  {
    var b1 := Find(s, '[') + 1;
    var b2 := Find(s, ']');
    var text := Slice(s, b1, b2);
    var lo := SliceBound(b1, |s|);
    assert ']' !in text by {
      if b2 >= 0 {
        if text != [] {
          assert text == s[..b2][lo..lo + |text|];
          NotInInfix(s[..b2], ']', lo, lo + |text|);
        }
      } else {
        NotInInfix(s, ']', lo, lo + |text|);
      }
    }
    var r := Strip(text);
    StripInfix(text);
    NotInInfix(text, ']', StripStart(text, 0), StripStart(text, 0) + |r|);
    r
  }

  /** A line whose first `[` comes before its first `]`. */
  predicate Tagged(s: string)
  {
    '[' in s && ']' in s && Find(s, '[') < Find(s, ']')
  }

  lemma BracketTextTagged(s: string)
    requires Tagged(s)
    ensures BracketText(s) == Strip(s[Find(s, '[') + 1..Find(s, ']')])
  {
    var b1, b2 := Find(s, '[') + 1, Find(s, ']');
    assert Slice(s, b1, b2) == s[b1..b2];
  }

  /** With no `[`, the name is whatever precedes the first `]`. */
  lemma BracketTextNoOpen(s: string)
    requires '[' !in s && ']' in s
    ensures BracketText(s) == Strip(s[..Find(s, ']')])
  {
    assert Slice(s, 0, Find(s, ']')) == s[..Find(s, ']')];
  }

  /** With no `]`, the slice ends at index -1, so the last character of the
      line is never part of the name. */
  lemma BracketTextNoClose(s: string)
    requires ']' !in s
    ensures Find(s, '[') + 1 < |s| - 1 ==>
              BracketText(s) == Strip(s[Find(s, '[') + 1..|s| - 1])
    ensures Find(s, '[') + 1 >= |s| - 1 ==> BracketText(s) == []
  {
    var lo := Find(s, '[') + 1;
    var text := Slice(s, lo, -1);
    assert BracketText(s) == Strip(text);
    if lo < |s| - 1 {
      assert text == s[lo..|s| - 1];
    } else {
      assert text == [];
      assert Strip(text) == [];
    }
  }

  /** A `]` before the first `[` gives an empty slice, hence no name. */
  lemma BracketTextReversed(s: string)
    requires '[' in s && ']' in s && Find(s, ']') < Find(s, '[')
    ensures BracketText(s) == []
  {
    assert Slice(s, Find(s, '[') + 1, Find(s, ']')) == [];
  }

  /** The handle made up for the `n`-th nameless peer: `"guest{}".format(n)`. */
  function GuestName(n: nat): (r: string)
    ensures |r| > 5 && r[..5] == "guest" && r[5..] == Decimal(n)
  {
    "guest" + Decimal(n)
  }

  lemma GuestNameShape(n: nat)
    ensures GuestName(n) != [] && ']' !in GuestName(n) && '[' !in GuestName(n)
    ensures IsStripped(GuestName(n))
  {
    var g := GuestName(n);
    assert g[0] == 'g';
    assert IsDigit(g[|g| - 1]);
    forall k | 0 <= k < |g|
      ensures g[k] != ']' && g[k] != '['
    {
      if k >= 5 { assert IsDigit(g[5..][k - 5]); }
    }
  }

  /** Guest handles for different counter values differ. */
  lemma GuestNameInjective(m: nat, n: nat)
    requires GuestName(m) == GuestName(n)
    ensures m == n
  {
    assert Decimal(m) == GuestName(m)[5..] == GuestName(n)[5..] == Decimal(n);
    DecimalInjective(m, n);
  }

  /** What `get_name(s)` returns when the guest counter stands at `n`. */
  function NameFor(s: string, n: nat): (name: string)
    ensures name != [] && ']' !in name && IsStripped(name)
  {
    GuestNameShape(n);
    var text := BracketText(s);
    if text != [] then text else GuestName(n)
  }

  /** `fix_msg(msg, name)`: `msg[:b1] + name + msg[b2:]` with `b1` just past
      the first `[` and `b2` at the first `]`; `ValueError` when either
      bracket is missing. */
  function FixMsg(msg: string, name: string): (r: Result<string>)
    ensures r.Ok? <==> '[' in msg && ']' in msg
    ensures r.Err? ==> r.error == ValueError
  {
    match Index(msg, '[')
    case Err(e) => Err(e)
    case Ok(i) =>
      match Index(msg, ']')
      case Err(e) => Err(e)
      case Ok(j) =>
        // both bounds lie inside msg, so Python's slices are Dafny's
        Ok(msg[..i + 1] + name + msg[j..])
  }

  /** Every character up to and including the first `[`, and every one from
      the first `]` on, is kept; `name` sits in between. */
  lemma FixMsgKeepsOutside(msg: string, name: string)
    requires '[' in msg && ']' in msg
    ensures var r, i, j := FixMsg(msg, name).value, Find(msg, '['), Find(msg, ']');
            && |r| == i + 1 + |name| + (|msg| - j)
            && r[..i + 1] == msg[..i + 1]
            && r[i + 1..i + 1 + |name|] == name
            && r[i + 1 + |name|..] == msg[j..]
  {
    var r, i, j := FixMsg(msg, name).value, Find(msg, '['), Find(msg, ']');
    assert r == msg[..i + 1] + name + msg[j..];
    assert r[..i + 1] == msg[..i + 1];
    assert r[i + 1..i + 1 + |name|] == name;
    assert r[i + 1 + |name|..] == msg[j..];
  }

  /** Rewriting a tagged line with a handle free of `]` yields a tagged line
      whose first bracket pair encloses exactly that handle, at the same
      opening position. */
  lemma FixMsgTag(msg: string, name: string)
    requires Tagged(msg) && ']' !in name
    ensures FixMsg(msg, name).Ok?
    ensures var r, i := FixMsg(msg, name).value, Find(msg, '[');
            && Tagged(r)
            && Find(r, '[') == i
            && Find(r, ']') == i + 1 + |name|
            && r[i + 1..i + 1 + |name|] == name
  {
    FixMsgKeepsOutside(msg, name);
    var r := FixMsg(msg, name).value;
    var i, j := Find(msg, '['), Find(msg, ']');
    assert r[i] == '[';
    assert r[..i] == msg[..i];
    FindAt(r, '[', i);
    var e := i + 1 + |name|;
    assert r[e] == msg[j];
    forall k | 0 <= k < e
      ensures r[..e][k] != ']'
    {
      if k <= i {
        assert r[k] == msg[..j][k];
      } else {
        assert r[k] == name[k - i - 1];
      }
    }
    FindAt(r, ']', e);
  }

  /** Rewriting twice is rewriting once with the second handle: whatever a
      line's tag held before, only the last stored handle shows. */
  lemma FixMsgOverride(msg: string, a: string, b: string)
    requires Tagged(msg) && ']' !in a
    ensures FixMsg(FixMsg(msg, a).value, b) == FixMsg(msg, b)
  {
    FixMsgTag(msg, a);
    FixMsgKeepsOutside(msg, a);
    var r := FixMsg(msg, a).value;
    var i, j := Find(msg, '['), Find(msg, ']');
    var e := i + 1 + |a|;
    FixMsgAt(r, b, i, e);
    FixMsgAt(msg, b, i, j);
    var head, tail := r[..i + 1], r[e..];
    assert head == msg[..i + 1] && tail == msg[j..];
  }

  /** `fix_msg` on a line whose first `[` is at `i` and first `]` at `j`. */
  lemma FixMsgAt(m: string, name: string, i: nat, j: nat)
    requires i < |m| && m[i] == '[' && '[' !in m[..i]
    requires j < |m| && m[j] == ']' && ']' !in m[..j]
    ensures FixMsg(m, name) == Ok(m[..i + 1] + name + m[j..])
  {
    FindAt(m, '[', i);
    FindAt(m, ']', j);
  }

  /** Handles parse back: re-reading the tag of a line rewritten with a
      stripped, `]`-free handle gives that handle. */
  lemma FixMsgNameRoundTrip(msg: string, name: string)
    requires Tagged(msg) && ']' !in name && IsStripped(name)
    ensures BracketText(FixMsg(msg, name).value) == name
  {
    StripUnchanged(name);
    FixMsgTag(msg, name);
    BracketTextTagged(FixMsg(msg, name).value);
  }

  /** When the first `]` precedes the first `[`, the two slices of
      `fix_msg` overlap: the text from that `]` through that `[` appears
      once before the handle and again right after it. */
  lemma FixMsgReversedRepeats(m: string, name: string, i: nat, j: nat)
    requires i < |m| && m[i] == '[' && '[' !in m[..i]
    requires j < i && m[j] == ']' && ']' !in m[..j]
    ensures var r, e := FixMsg(m, name).value, i + 1 + |name|;
            && e + (i + 1 - j) <= |r|
            && r[j..i + 1] == m[j..i + 1]
            && r[e..e + (i + 1 - j)] == m[j..i + 1]
  {
    FixMsgAt(m, name, i, j);
  }

  /** For instance, `fix_msg("]x[", "n")` is `"]x[n]x["`. */
  lemma FixMsgReversedExample()
    ensures FixMsg("]x[", "n") == Ok("]x[n]x[")
  {
    var m := "]x[";
    FindAt(m, '[', 2);
    FindAt(m, ']', 0);
    assert FixMsg(m, "n").value == m[..3] + "n" + m[0..];
    assert m[..3] + "n" + m[0..] == "]x[n]x[";
  }
}
