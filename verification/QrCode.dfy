/** The QR code string of a device, split twice with escapes (scripts/zigbee_production_config.py). */
module QrCode {
  import opened Basics

  datatype Result<T> = Ok(value: T) | Error(reason: Reason)

  datatype Reason =
    | MoreThanOneZigbeeInterface
    | NoZigbeeInterface
    | MissingParameter
    | InstallCodeLength

  const INSTALL_CODE_CHARACTERS: nat := 36

  // ---------- Splitting ----------

  function PrependTo(x: string, parts: seq<string>): (r: seq<string>)
    requires parts != []
    ensures |r| == |parts|
  {
    [x + parts[0]] + parts[1..]
  }

  /** Splits at separators, except at those that follow an escaping '*'; the escapes stay. */
  function Split(s: string, sep: char): (parts: seq<string>)
    ensures parts != []
  {
    if s == [] then [""]
    else if s[0] == '*' then
      var n := if |s| > 1 then 2 else 1;
      PrependTo(s[..n], Split(s[n..], sep))
    else if s[0] == sep then [""] + Split(s[1..], sep)
    else PrependTo(s[..1], Split(s[1..], sep))
  }

  function Join(parts: seq<string>, sep: char): string
    requires parts != []
  {
    if |parts| == 1 then parts[0] else parts[0] + [sep] + Join(parts[1..], sep)
  }

  /** `rest` goes on where the last of `parts` stops. */
  function Merge(parts: seq<string>, rest: seq<string>): seq<string>
    requires parts != [] && rest != []
  {
    parts[..|parts| - 1] + [parts[|parts| - 1] + rest[0]] + rest[1..]
  }

  method SplitQrCode(value: string, sep: char) returns (parts: seq<string>)
    ensures parts == Split(value, sep)
  {
    hide Merge, PrependTo;
    parts := [""];
    var i := 0;
    MergeNothing(Split(value, sep));
    assert value[0..] == value;
    while i < |value|
      invariant i <= |value| && parts != []
      invariant Merge(parts, Split(value[i..], sep)) == Split(value, sep)
    {
      var c, last := value[i], |parts| - 1;
      ghost var rest := Split(value[i..], sep);
      if c == '*' {
        var n := if i + 1 < |value| then 2 else 1;
        assert value[i..][..n] == value[i..i + n] && value[i..][n..] == value[i + n..];
        MergePrepend(parts, value[i..i + n], Split(value[i + n..], sep));
        parts := parts[last := parts[last] + value[i..i + n]];
        i := i + n;
      } else if c == sep {
        assert value[i..][1..] == value[i + 1..];
        MergeEmpty(parts, Split(value[i + 1..], sep));
        parts := parts + [""];
        i := i + 1;
      } else {
        assert value[i..][..1] == [c] && value[i..][1..] == value[i + 1..];
        MergePrepend(parts, [c], Split(value[i + 1..], sep));
        parts := parts[last := parts[last] + [c]];
        i := i + 1;
      }
    }
    assert value[i..] == [];
    MergeEnd(parts);
  }

  lemma MergeNothing(rest: seq<string>)
    requires rest != []
    ensures Merge([""], rest) == rest
  {
    assert "" + rest[0] == rest[0];
  }

  lemma MergeEnd(parts: seq<string>)
    requires parts != []
    ensures Merge(parts, [""]) == parts
  {
    assert parts[|parts| - 1] + "" == parts[|parts| - 1];
  }

  lemma MergePrepend(parts: seq<string>, x: string, rest: seq<string>)
    requires parts != [] && rest != []
    ensures Merge(parts, PrependTo(x, rest)) == Merge(parts[|parts| - 1 := parts[|parts| - 1] + x], rest)
  {
    var last := parts[|parts| - 1];
    assert last + (x + rest[0]) == last + x + rest[0];
  }

  lemma MergeEmpty(parts: seq<string>, rest: seq<string>)
    requires parts != [] && rest != []
    ensures Merge(parts, [""] + rest) == Merge(parts + [""], rest)
  {
    assert parts[|parts| - 1] + "" == parts[|parts| - 1] && "" + rest[0] == rest[0];
  }

  /** No character is lost: joining the parts gives the string back, whatever it is. */
  lemma {:induction false} JoinOfSplit(s: string, sep: char)
    ensures Join(Split(s, sep), sep) == s
  {
    if s != [] {
      var n := if s[0] == '*' && |s| > 1 then 2 else 1;
      JoinOfSplit(s[n..], sep);
      assert s == s[..n] + s[n..];
      if s[0] != '*' && s[0] == sep {
        assert ([""] + Split(s[1..], sep))[1..] == Split(s[1..], sep);
      } else {
        JoinPrepend(s[..n], Split(s[n..], sep), sep);
      }
    }
  }

  lemma JoinPrepend(x: string, parts: seq<string>, sep: char)
    requires parts != []
    ensures Join(PrependTo(x, parts), sep) == x + Join(parts, sep)
  {
    assert PrependTo(x, parts)[1..] == parts[1..];
  }

  /** No separator outside escapes, and no '*' left without its character. */
  predicate Clean(s: string, sep: char) {
    s == [] ||
    (if s[0] == '*' then |s| > 1 && Clean(s[2..], sep) else s[0] != sep && Clean(s[1..], sep))
  }

  lemma {:induction false} SplitOfCleanPrefix(a: string, b: string, sep: char)
    requires Clean(a, sep)
    ensures Split(a + b, sep) == PrependTo(a, Split(b, sep))
  {
    if a == [] {
      assert a + b == b && a + Split(b, sep)[0] == Split(b, sep)[0];
    } else {
      var n := if a[0] == '*' then 2 else 1;
      var parts := Split(b, sep);
      SplitOfCleanPrefix(a[n..], b, sep);
      assert (a + b)[..n] == a[..n] && (a + b)[n..] == a[n..] + b;
      assert a[..n] + (a[n..] + parts[0]) == a + parts[0];
    }
  }

  /** Parts without loose separators or escapes come back from the joined string. */
  lemma {:induction false} SplitOfJoin(parts: seq<string>, sep: char)
    requires parts != [] && sep != '*'
    requires forall i :: 0 <= i < |parts| ==> Clean(parts[i], sep)
    ensures Split(Join(parts, sep), sep) == parts
  {
    if |parts| == 1 {
      SplitOfCleanPrefix(parts[0], "", sep);
      assert parts[0] + "" == parts[0];
      assert PrependTo(parts[0], [""]) == parts;
    } else {
      SplitOfJoin(parts[1..], sep);
      var rest := [sep] + Join(parts[1..], sep);
      SplitOfCleanPrefix(parts[0], rest, sep);
      assert rest[1..] == Join(parts[1..], sep);
      assert Split(rest, sep) == [""] + parts[1..];
      assert parts[0] + "" == parts[0];
      assert PrependTo(parts[0], Split(rest, sep)) == parts;
      assert parts[0] + [sep] + Join(parts[1..], sep) == parts[0] + rest;
    }
  }

  /** Clean, or clean but for an escape at the very end. */
  predicate CleanOrLoose(s: string, sep: char) {
    Clean(s, sep) || (s != [] && s[|s| - 1] == '*' && Clean(s[..|s| - 1], sep))
  }

  /** No part has a loose separator, and only the last can end with an escape that escapes nothing. */
  lemma {:induction false} SplitPartsAreClean(s: string, sep: char)
    ensures forall i :: 0 <= i < |Split(s, sep)| - 1 ==> Clean(Split(s, sep)[i], sep)
    ensures CleanOrLoose(Split(s, sep)[|Split(s, sep)| - 1], sep)
  {
    if s == [] {
    } else if s[0] != '*' && s[0] == sep {
      SplitPartsAreClean(s[1..], sep);
    } else {
      var n := if s[0] == '*' && |s| > 1 then 2 else 1;
      var rest := Split(s[n..], sep);
      SplitPartsAreClean(s[n..], sep);
      PrependIsClean(s[..n], rest[0], sep);
    }
  }

  lemma PrependIsClean(x: string, s: string, sep: char)
    requires if |x| == 1 then (if x[0] == '*' then s == [] else x[0] != sep) else |x| == 2 && x[0] == '*'
    ensures Clean(s, sep) && x != "*" ==> Clean(x + s, sep)
    ensures CleanOrLoose(s, sep) ==> CleanOrLoose(x + s, sep)
  {
    assert (x + s)[|x|..] == s;
    if s != [] && s[|s| - 1] == '*' {
      assert (x + s)[..|x + s| - 1] == x + s[..|s| - 1];
      assert (x + s[..|s| - 1])[|x|..] == s[..|s| - 1];
    }
    if x == "*" {
      assert x + s == "*" && "*"[..0] == "";
    }
  }

  // ---------- Parameters ----------

  /** str.partition(":"): what stands before and after the first colon. */
  function Partition(s: string): (string, string) {
    if s == [] then ("", "")
    else if s[0] == ':' then ("", s[1..])
    else var (a, b) := Partition(s[1..]); (s[..1] + a, b)
  }

  /** re.sub(r"\*(.)", r"\1", v), where "." is any character but a line feed. */
  function Unescape(v: string): string {
    if |v| < 2 then v
    else if v[0] == '*' && v[1] != '\n' then [v[1]] + Unescape(v[2..])
    else [v[0]] + Unescape(v[1..])
  }

  function RemoveSpaces(s: string): string {
    if s == [] then "" else (if s[0] == ' ' then "" else s[..1]) + RemoveSpaces(s[1..])
  }

  /** One interface of the QR code; no shortcut is the empty one. */
  datatype Interface = Interface(key: string, shortcut: string, params: seq<(string, string)>)

  function ParseParams(parts: seq<string>): (r: seq<(string, string)>)
    ensures |r| == |parts|
  {
    seq(|parts|, i requires 0 <= i < |parts| => (Partition(parts[i]).0, Unescape(Partition(parts[i]).1)))
  }

  function ParseInterface(parameterList: string): Interface {
    var parts := Split(parameterList, '$');
    Interface(Partition(parts[0]).0, Partition(parts[0]).1, ParseParams(parts[1..]))
  }

  function ParseInterfaces(lists: seq<string>): (r: seq<Interface>)
    ensures |r| == |lists|
  {
    seq(|lists|, i requires 0 <= i < |lists| => ParseInterface(lists[i]))
  }

  /** The structure of a QR code string. */
  function Tokenize(value: string): seq<Interface> {
    ParseInterfaces(Split(RemoveSpaces(value), '%'))
  }

  // ---------- What stands in the string ----------

  function NonSpaces(s: string): nat {
    if s == [] then 0 else (if s[0] == ' ' then 0 else 1) + NonSpaces(s[1..])
  }

  /** Every other character stays, behind as many as stood before it; there are no spaces. */
  lemma {:induction false} SpacesRemoved(s: string)
    ensures |RemoveSpaces(s)| == NonSpaces(s) && ' ' !in RemoveSpaces(s)
    ensures forall i :: 0 <= i < |s| && s[i] != ' ' ==>
              NonSpaces(s[..i]) < |RemoveSpaces(s)| && RemoveSpaces(s)[NonSpaces(s[..i])] == s[i]
  {
    if s != [] {
      SpacesRemoved(s[1..]);
      forall i | 0 <= i < |s| && s[i] != ' '
        ensures NonSpaces(s[..i]) < |RemoveSpaces(s)| && RemoveSpaces(s)[NonSpaces(s[..i])] == s[i]
      {
        if i > 0 {
          assert s[..i][1..] == s[1..][..i - 1] && s[1..][i - 1] == s[i];
        }
      }
    }
  }

  /** A parameter is named by what stands before its first colon, as it is; its value is unescaped. */
  lemma ParameterIs(parts: seq<string>, i: nat, name: string, v: string)
    requires i < |parts| && ':' !in name
    ensures parts[i] == name + ":" + v ==> ParseParams(parts)[i] == (name, Unescape(v))
    ensures parts[i] == name ==> ParseParams(parts)[i] == (name, "")
  {
    PartitionOfKey(name, v);
  }

  /** The key and the shortcut of an interface are what stands around the first colon of its first part. */
  lemma InterfaceIs(list: string, head: string, parts: seq<string>, key: string, shortcut: string)
    requires Split(list, '$') == [head] + parts && ':' !in key
    requires head == key + ":" + shortcut || (head == key && shortcut == "")
    ensures ParseInterface(list) == Interface(key, shortcut, ParseParams(parts))
  {
    PartitionOfKey(key, shortcut);
    assert Split(list, '$')[1..] == parts;
  }

  // ---------- Writing a QR code string ----------

  predicate Special(c: char) {
    c == '*' || c == '$' || c == '%'
  }

  function Escape(v: string): string {
    if v == [] then ""
    else (if Special(v[0]) then ['*', v[0]] else [v[0]]) + Escape(v[1..])
  }

  predicate Plain(s: string) {
    forall i :: 0 <= i < |s| ==> !Special(s[i]) && s[i] != ' '
  }

  predicate WellFormed(x: Interface) {
    && Plain(x.key) && ':' !in x.key && Plain(x.shortcut)
    && forall i :: 0 <= i < |x.params| ==> Plain(x.params[i].0) && ':' !in x.params[i].0 && ' ' !in x.params[i].1
  }

  function EncodeParam(p: (string, string)): string {
    p.0 + ":" + Escape(p.1)
  }

  function EncodeHead(x: Interface): string {
    if x.shortcut == "" then x.key else x.key + ":" + x.shortcut
  }

  function EncodeParams(ps: seq<(string, string)>): (r: seq<string>)
    ensures |r| == |ps|
  {
    seq(|ps|, i requires 0 <= i < |ps| => EncodeParam(ps[i]))
  }

  function EncodeInterface(x: Interface): string {
    Join([EncodeHead(x)] + EncodeParams(x.params), '$')
  }

  function EncodeInterfaces(xs: seq<Interface>): (r: seq<string>)
    ensures |r| == |xs|
  {
    seq(|xs|, i requires 0 <= i < |xs| => EncodeInterface(xs[i]))
  }

  function Encode(xs: seq<Interface>): string
    requires xs != []
  {
    Join(EncodeInterfaces(xs), '%')
  }

  // ---------- Round trip ----------

  lemma {:induction false} PartitionOfKey(k: string, v: string)
    requires ':' !in k
    ensures Partition(k + ":" + v) == (k, v) && Partition(k) == (k, "")
  {
    if k == [] {
      assert "" + ":" + v == ":" + v && (":" + v)[1..] == v;
    } else {
      assert (k + ":" + v)[1..] == k[1..] + ":" + v && (k + ":" + v)[..1] == k[..1] && k == k[..1] + k[1..];
      PartitionOfKey(k[1..], v);
    }
  }

  lemma {:induction false} UnescapeOfEscape(v: string)
    ensures Unescape(Escape(v)) == v
  {
    if v != [] {
      UnescapeOfEscape(v[1..]);
      var e, rest := Escape(v), Escape(v[1..]);
      assert v == [v[0]] + v[1..];
      if Special(v[0]) {
        assert e[0] == '*' && e[1] == v[0] && e[2..] == rest;
      } else {
        assert e[0] == v[0] && e[1..] == rest;
      }
    }
  }

  /** `v` with an escape before the characters that `which` marks. */
  function EscapeSome(v: string, which: seq<bool>): string
    requires |which| == |v|
  {
    if v == [] then "" else (if which[0] then ['*', v[0]] else [v[0]]) + EscapeSome(v[1..], which[1..])
  }

  /** Whatever else is escaped than has to be, unescaping undoes it; a line feed cannot be. */
  lemma {:induction false} UnescapeOfAnyEscape(v: string, which: seq<bool>)
    requires |which| == |v|
    requires forall i :: 0 <= i < |v| ==> (v[i] == '*' ==> which[i]) && (which[i] ==> v[i] != '\n')
    ensures Unescape(EscapeSome(v, which)) == v
  {
    if v != [] {
      UnescapeOfAnyEscape(v[1..], which[1..]);
      var e, rest := EscapeSome(v, which), EscapeSome(v[1..], which[1..]);
      assert v == [v[0]] + v[1..];
      if which[0] {
        assert e[0] == '*' && e[1] == v[0] && e[2..] == rest;
      } else {
        assert e[0] == v[0] && e[1..] == rest;
      }
    }
  }

  /** An escape before a line feed, or before nothing, stays. */
  lemma LooseEscapeStays(w: string)
    ensures Unescape("*\n" + w) == "*\n" + Unescape(w) && Unescape("*") == "*"
  {
    var v := "*\n" + w;
    assert v[1..] == "\n" + w && ("\n" + w)[1..] == w;
    assert ['*'] + (['\n'] + Unescape(w)) == "*\n" + Unescape(w);
  }

  lemma {:induction false} CleanAppend(a: string, b: string, sep: char)
    requires Clean(a, sep) && Clean(b, sep)
    ensures Clean(a + b, sep)
  {
    if a == [] {
      assert a + b == b;
    } else {
      var n := if a[0] == '*' then 2 else 1;
      assert (a + b)[n..] == a[n..] + b;
      CleanAppend(a[n..], b, sep);
    }
  }

  lemma {:induction false} PlainIsClean(s: string, sep: char)
    requires (sep == '$' || sep == '%') && forall i :: 0 <= i < |s| ==> !Special(s[i])
    ensures Clean(s, sep)
  {
    if s != [] {
      PlainIsClean(s[1..], sep);
    }
  }

  lemma {:induction false} EscapedIsClean(v: string, sep: char)
    requires sep == '$' || sep == '%'
    ensures Clean(Escape(v), sep)
  {
    if v != [] {
      EscapedIsClean(v[1..], sep);
      var head := if Special(v[0]) then ['*', v[0]] else [v[0]];
      assert Clean(head, sep) by {
        assert Clean("", sep) && head[|head|..] == "";
      }
      CleanAppend(head, Escape(v[1..]), sep);
    }
  }

  lemma {:induction false} JoinIsClean(parts: seq<string>, inner: char, outer: char)
    requires parts != [] && inner != outer && inner != '*'
    requires forall i :: 0 <= i < |parts| ==> Clean(parts[i], outer)
    ensures Clean(Join(parts, inner), outer)
  {
    if |parts| > 1 {
      JoinIsClean(parts[1..], inner, outer);
      assert Clean([inner], outer) by { assert [inner][1..] == ""; }
      CleanAppend(parts[0], [inner], outer);
      CleanAppend(parts[0] + [inner], Join(parts[1..], inner), outer);
    }
  }

  lemma PartsAreClean(x: Interface, sep: char)
    requires WellFormed(x) && (sep == '$' || sep == '%')
    ensures forall i :: 0 <= i <= |x.params| ==> Clean(([EncodeHead(x)] + EncodeParams(x.params))[i], sep)
  {
    PlainIsClean(x.key, sep);
    PlainIsClean(x.shortcut, sep);
    PlainIsClean(":", sep);
    CleanAppend(x.key, ":", sep);
    CleanAppend(x.key + ":", x.shortcut, sep);
    forall i | 0 <= i < |x.params| ensures Clean(EncodeParam(x.params[i]), sep) {
      var p := x.params[i];
      PlainIsClean(p.0, sep);
      EscapedIsClean(p.1, sep);
      CleanAppend(p.0, ":", sep);
      CleanAppend(p.0 + ":", Escape(p.1), sep);
    }
  }

  lemma InterfaceRoundTrip(x: Interface)
    requires WellFormed(x)
    ensures ParseInterface(EncodeInterface(x)) == x
  {
    var parts := [EncodeHead(x)] + EncodeParams(x.params);
    PartsAreClean(x, '$');
    SplitOfJoin(parts, '$');
    PartitionOfKey(x.key, x.shortcut);
    assert parts[1..] == EncodeParams(x.params);
    forall i | 0 <= i < |x.params| ensures ParseParams(parts[1..])[i] == x.params[i] {
      PartitionOfKey(x.params[i].0, Escape(x.params[i].1));
      UnescapeOfEscape(x.params[i].1);
    }
    assert ParseParams(parts[1..]) == x.params;
  }

  // Spaces are removed before anything else; an encoded string has none.

  lemma {:induction false} NoSpaces(s: string)
    requires ' ' !in s
    ensures RemoveSpaces(s) == s
  {
    if s != [] {
      NoSpaces(s[1..]);
      assert s == s[..1] + s[1..];
    }
  }

  lemma {:induction false} EscapeHasNoSpace(v: string)
    requires ' ' !in v
    ensures ' ' !in Escape(v)
  {
    if v != [] {
      EscapeHasNoSpace(v[1..]);
    }
  }

  lemma {:induction false} JoinHasNoSpace(parts: seq<string>, sep: char)
    requires parts != [] && sep != ' '
    requires forall i :: 0 <= i < |parts| ==> ' ' !in parts[i]
    ensures ' ' !in Join(parts, sep)
  {
    if |parts| > 1 {
      JoinHasNoSpace(parts[1..], sep);
    }
  }

  lemma InterfaceHasNoSpace(x: Interface)
    requires WellFormed(x)
    ensures ' ' !in EncodeInterface(x)
  {
    var parts := [EncodeHead(x)] + EncodeParams(x.params);
    forall i | 0 <= i < |x.params| ensures ' ' !in EncodeParam(x.params[i]) {
      EscapeHasNoSpace(x.params[i].1);
    }
    JoinHasNoSpace(parts, '$');
  }

  /** Escaping, joining, splitting, partitioning and unescaping give the interfaces back. */
  lemma RoundTrip(xs: seq<Interface>)
    requires xs != [] && forall i :: 0 <= i < |xs| ==> WellFormed(xs[i])
    ensures Tokenize(Encode(xs)) == xs
  {
    var lists := EncodeInterfaces(xs);
    forall i | 0 <= i < |xs| ensures Clean(lists[i], '%') && ' ' !in lists[i] && ParseInterface(lists[i]) == xs[i] {
      PartsAreClean(xs[i], '%');
      JoinIsClean([EncodeHead(xs[i])] + EncodeParams(xs[i].params), '$', '%');
      InterfaceHasNoSpace(xs[i]);
      InterfaceRoundTrip(xs[i]);
    }
    JoinHasNoSpace(lists, '%');
    NoSpaces(Encode(xs));
    SplitOfJoin(lists, '%');
  }

  lemma JoinTwo(a: string, b: string, sep: char)
    ensures Join([a, b], sep) == a + [sep] + b
  {
    assert [a, b][1..] == [b];
  }

  lemma OneParameter(x: Interface, p: (string, string))
    requires x.params == [p]
    ensures EncodeInterface(x) == EncodeHead(x) + "$" + EncodeParam(p)
  {
    assert [EncodeHead(x)] + EncodeParams(x.params) == [EncodeHead(x), EncodeParam(p)];
    JoinTwo(EncodeHead(x), EncodeParam(p), '$');
  }

  lemma EscapedExample()
    ensures Escape("3%*$") == "3*%***$"
  {
    assert Escape("*$") == "***$";
    assert Escape("3%*$") == "3" + ("*%" + Escape("*$"));
  }

  lemma GlobalExample()
    ensures EncodeInterface(Interface("G", "", [("A", "1")])) == "G$A:1"
  {
    OneParameter(Interface("G", "", [("A", "1")]), ("A", "1"));
    assert Escape("1") == "1";
  }

  lemma ZigbeeExample()
    ensures EncodeInterface(Interface("Z", "2", [("I", "3%*$")])) == "Z:2$I:3*%***$"
  {
    hide Escape, EncodeInterface;
    OneParameter(Interface("Z", "2", [("I", "3%*$")]), ("I", "3%*$"));
    EscapedExample();
  }

  /** What the characters are for: interfaces between '%', their parts between '$', escapes with '*'. */
  lemma WrittenExample()
    ensures Encode([Interface("G", "", [("A", "1")]), Interface("Z", "2", [("I", "3%*$")])])
         == "G$A:1%Z:2$I:3*%***$"
  {
    hide EncodeInterface, Escape, Join;
    var g, z := Interface("G", "", [("A", "1")]), Interface("Z", "2", [("I", "3%*$")]);
    GlobalExample();
    ZigbeeExample();
    assert EncodeInterfaces([g, z]) == [EncodeInterface(g), EncodeInterface(z)];
    JoinTwo(EncodeInterface(g), EncodeInterface(z), '%');
  }

  // ---------- parse_qr_code ----------

  /** The last of the parameters named `key`. */
  function LastValue(ps: seq<(string, string)>, key: string): Option<string> {
    if ps == [] then None
    else if ps[|ps| - 1].0 == key then Some(ps[|ps| - 1].1)
    else LastValue(ps[..|ps| - 1], key)
  }

  function GlobalParams(xs: seq<Interface>): seq<(string, string)> {
    if xs == [] then []
    else GlobalParams(xs[..|xs| - 1]) + if xs[|xs| - 1].key == "G" then xs[|xs| - 1].params else []
  }

  function ZigbeeInterfaces(xs: seq<Interface>): seq<Interface> {
    if xs == [] then []
    else ZigbeeInterfaces(xs[..|xs| - 1]) + if xs[|xs| - 1].key == "Z" then [xs[|xs| - 1]] else []
  }

  function ZigbeeParams(x: Interface): seq<(string, string)> {
    x.params + if x.shortcut != "" then [("A", x.shortcut)] else []
  }

  /**
    What a QR code says: of the parameters of all global interfaces, then those of the one Zigbee
    interface, then its shortcut, the last value of I is the install code and that of A the address.
   */
  function Meaning(xs: seq<Interface>): Result<(string, string)> {
    var zs := ZigbeeInterfaces(xs);
    if |zs| > 1 then Error(MoreThanOneZigbeeInterface)
    else if |zs| == 0 then Error(NoZigbeeInterface)
    else
      var params := GlobalParams(xs) + ZigbeeParams(zs[0]);
      match (LastValue(params, "A"), LastValue(params, "I"))
      case (Some(a), Some(i)) => if |i| != INSTALL_CODE_CHARACTERS then Error(InstallCodeLength) else Ok((i, a))
      case (_, _) => Error(MissingParameter)
  }

  // What that means, on the interfaces themselves.

  predicate LastIs(ps: seq<(string, string)>, name: string, v: string) {
    exists k :: 0 <= k < |ps| && ps[k] == (name, v) && forall j :: k < j < |ps| ==> ps[j].0 != name
  }

  predicate Lacks(ps: seq<(string, string)>, name: string) {
    forall j :: 0 <= j < |ps| ==> ps[j].0 != name
  }

  predicate GlobalIs(xs: seq<Interface>, name: string, v: string) {
    exists m :: 0 <= m < |xs| && xs[m].key == "G" && LastIs(xs[m].params, name, v)
      && forall n :: m < n < |xs| && xs[n].key == "G" ==> Lacks(xs[n].params, name)
  }

  predicate GlobalLacks(xs: seq<Interface>, name: string) {
    forall n :: 0 <= n < |xs| && xs[n].key == "G" ==> Lacks(xs[n].params, name)
  }

  /** The Zigbee interface's shortcut, or else its own parameter, or else that of the global interfaces. */
  predicate AddressIs(xs: seq<Interface>, z: Interface, a: string) {
    if z.shortcut != "" then a == z.shortcut
    else LastIs(z.params, "A", a) || (Lacks(z.params, "A") && GlobalIs(xs, "A", a))
  }

  predicate CodeIs(xs: seq<Interface>, z: Interface, i: string) {
    LastIs(z.params, "I", i) || (Lacks(z.params, "I") && GlobalIs(xs, "I", i))
  }

  predicate NoAddress(xs: seq<Interface>, z: Interface) {
    z.shortcut == "" && Lacks(z.params, "A") && GlobalLacks(xs, "A")
  }

  predicate NoCode(xs: seq<Interface>, z: Interface) {
    Lacks(z.params, "I") && GlobalLacks(xs, "I")
  }

  predicate OnlyZigbee(xs: seq<Interface>, n: nat) {
    n < |xs| && xs[n].key == "Z" && forall m :: 0 <= m < |xs| && m != n ==> xs[m].key != "Z"
  }

  lemma {:induction false} LastValueIs(ps: seq<(string, string)>, name: string)
    ensures LastValue(ps, name).None? <==> Lacks(ps, name)
    ensures forall v :: LastValue(ps, name) == Some(v) <==> LastIs(ps, name, v)
  {
    if ps != [] {
      var n := |ps| - 1;
      LastValueIs(ps[..n], name);
      if ps[n].0 == name {
        assert LastIs(ps, name, ps[n].1);
      } else {
        forall v ensures LastIs(ps, name, v) <==> LastIs(ps[..n], name, v) {
          if k :| 0 <= k < |ps| && ps[k] == (name, v) && forall j :: k < j < |ps| ==> ps[j].0 != name {
            assert ps[..n][k] == (name, v);
          }
        }
      }
    }
  }

  lemma {:induction false} LastValueAppend(a: seq<(string, string)>, b: seq<(string, string)>, name: string)
    ensures LastValue(a + b, name) == if LastValue(b, name).Some? then LastValue(b, name) else LastValue(a, name)
  {
    if b == [] {
      assert a + b == a;
    } else {
      assert (a + b)[..|a + b| - 1] == a + b[..|b| - 1];
      LastValueAppend(a, b[..|b| - 1], name);
    }
  }

  lemma {:induction false} GlobalValueIs(xs: seq<Interface>, name: string)
    ensures LastValue(GlobalParams(xs), name).None? <==> GlobalLacks(xs, name)
    ensures forall v :: LastValue(GlobalParams(xs), name) == Some(v) <==> GlobalIs(xs, name, v)
  {
    hide LastIs, Lacks, LastValue;
    if xs == [] {
      LastValueIs([], name);
      LacksNothing(name);
    } else {
      var n := |xs| - 1;
      var own := if xs[n].key == "G" then xs[n].params else [];
      GlobalValueIs(xs[..n], name);
      LastValueAppend(GlobalParams(xs[..n]), own, name);
      LastValueIs(own, name);
      LacksNothing(name);
      GlobalStep(xs, name);
    }
  }

  lemma LacksNothing(name: string)
    ensures Lacks([], name) && forall v :: !LastIs([], name, v)
  {
  }

  lemma GlobalStep(xs: seq<Interface>, name: string)
    requires xs != []
    ensures var n := |xs| - 1;
            && (GlobalLacks(xs, name) <==>
                  GlobalLacks(xs[..n], name) && (xs[n].key == "G" ==> Lacks(xs[n].params, name)))
            && forall v :: GlobalIs(xs, name, v) <==>
                 (xs[n].key == "G" && LastIs(xs[n].params, name, v))
                 || (GlobalIs(xs[..n], name, v) && (xs[n].key == "G" ==> Lacks(xs[n].params, name)))
  {
  }

  predicate IsZigbee(x: Interface) {
    x.key == "Z"
  }

  predicate NoZigbee(xs: seq<Interface>) {
    forall n :: 0 <= n < |xs| ==> !IsZigbee(xs[n])
  }

  predicate TwoZigbees(xs: seq<Interface>) {
    exists m, n :: 0 <= m < n < |xs| && IsZigbee(xs[m]) && IsZigbee(xs[n])
  }

  lemma {:induction false} NoZigbeeIs(xs: seq<Interface>)
    ensures ZigbeeInterfaces(xs) == [] <==> NoZigbee(xs)
  {
    if xs != [] {
      NoZigbeeIs(xs[..|xs| - 1]);
      assert IsZigbee(xs[|xs| - 1]) == (xs[|xs| - 1].key == "Z");
      hide IsZigbee;
    }
  }

  lemma {:induction false} TwoZigbeesAre(xs: seq<Interface>)
    ensures |ZigbeeInterfaces(xs)| > 1 <==> TwoZigbees(xs)
  {
    if xs != [] {
      var last := |xs| - 1;
      NoZigbeeIs(xs[..last]);
      TwoZigbeesAre(xs[..last]);
      assert IsZigbee(xs[last]) == (xs[last].key == "Z");
      hide IsZigbee;
      TwoZigbeesStep(xs);
    }
  }

  lemma TwoZigbeesStep(xs: seq<Interface>)
    requires xs != []
    ensures TwoZigbees(xs) <==>
              TwoZigbees(xs[..|xs| - 1]) || (!NoZigbee(xs[..|xs| - 1]) && IsZigbee(xs[|xs| - 1]))
  {
    hide IsZigbee;
    var last := |xs| - 1;
    if m, n :| 0 <= m < n < |xs| && IsZigbee(xs[m]) && IsZigbee(xs[n]) {
      assert IsZigbee(xs[..last][m]);
      if n < last {
        assert IsZigbee(xs[..last][n]);
      }
    }
  }

  lemma {:induction false} OnlyZigbeeIs(xs: seq<Interface>, n: nat)
    requires OnlyZigbee(xs, n)
    ensures ZigbeeInterfaces(xs) == [xs[n]]
  {
    var last := |xs| - 1;
    if n == last {
      NoZigbeeIs(xs[..last]);
    } else {
      OnlyZigbeeIs(xs[..last], n);
    }
  }

  lemma ZigbeeValue(z: Interface)
    ensures LastValue(ZigbeeParams(z), "A") == if z.shortcut != "" then Some(z.shortcut) else LastValue(z.params, "A")
    ensures LastValue(ZigbeeParams(z), "I") == LastValue(z.params, "I")
  {
    if z.shortcut != "" {
      LastValueAppend(z.params, [("A", z.shortcut)], "A");
      LastValueAppend(z.params, [("A", z.shortcut)], "I");
      assert [("A", z.shortcut)][..0] == [];
    } else {
      assert ZigbeeParams(z) == z.params;
    }
  }

  /** Whose parameter counts: the Zigbee interface's own over those of the global interfaces. */
  lemma ParameterCounts(xs: seq<Interface>, z: Interface, name: string)
    requires name == "A" || name == "I"
    ensures var p := LastValue(GlobalParams(xs) + ZigbeeParams(z), name);
            && (p.None? <==> if name == "A" then NoAddress(xs, z) else NoCode(xs, z))
            && forall v :: p == Some(v) <==> if name == "A" then AddressIs(xs, z, v) else CodeIs(xs, z, v)
  {
    hide LastIs, Lacks, GlobalIs, GlobalLacks, LastValue;
    LastValueAppend(GlobalParams(xs), ZigbeeParams(z), name);
    ZigbeeValue(z);
    LastValueIs(z.params, name);
    GlobalValueIs(xs, name);
  }

  /** With one Zigbee interface: what the code says, and when it says nothing. */
  lemma MeaningIs(xs: seq<Interface>, n: nat)
    requires OnlyZigbee(xs, n)
    ensures forall i, a :: Meaning(xs) == Ok((i, a)) <==>
              CodeIs(xs, xs[n], i) && AddressIs(xs, xs[n], a) && |i| == 36
    ensures Meaning(xs) == Error(MissingParameter) <==> NoCode(xs, xs[n]) || NoAddress(xs, xs[n])
    ensures Meaning(xs) == Error(InstallCodeLength) <==>
              !NoAddress(xs, xs[n]) && exists i :: CodeIs(xs, xs[n], i) && |i| != 36
  {
    hide CodeIs, AddressIs, NoCode, NoAddress, GlobalParams, LastValue, ZigbeeParams;
    OnlyZigbeeIs(xs, n);
    ParameterCounts(xs, xs[n], "A");
    ParameterCounts(xs, xs[n], "I");
    hide ZigbeeInterfaces, OnlyZigbee;
  }

  /** Otherwise the error says whether there was no Zigbee interface or more than one. */
  lemma ZigbeeErrors(xs: seq<Interface>)
    ensures Meaning(xs) == Error(NoZigbeeInterface) <==> NoZigbee(xs)
    ensures Meaning(xs) == Error(MoreThanOneZigbeeInterface) <==> TwoZigbees(xs)
  {
    hide GlobalParams, LastValue, ZigbeeParams, ZigbeeInterfaces;
    NoZigbeeIs(xs);
    TwoZigbeesAre(xs);
  }

  /** The dictionary of a parameter list: later values replace earlier ones. */
  function ParamMap(ps: seq<(string, string)>): map<string, string> {
    if ps == [] then map[]
    else ParamMap(ps[..|ps| - 1])[ps[|ps| - 1].0 := ps[|ps| - 1].1]
  }

  lemma {:induction false} ParamMapIsLastValue(ps: seq<(string, string)>, key: string)
    ensures LastValue(ps, key) == if key in ParamMap(ps) then Some(ParamMap(ps)[key]) else None
  {
    if ps != [] {
      ParamMapIsLastValue(ps[..|ps| - 1], key);
    }
  }

  lemma {:induction false} ParamMapAppend(a: seq<(string, string)>, b: seq<(string, string)>)
    ensures ParamMap(a + b) == ParamMap(a) + ParamMap(b)
  {
    if b == [] {
      assert a + b == a;
    } else {
      assert (a + b)[..|a + b| - 1] == a + b[..|b| - 1];
      ParamMapAppend(a, b[..|b| - 1]);
    }
  }

  method BuildParams(parameters: seq<string>) returns (params: map<string, string>)
    ensures params == ParamMap(ParseParams(parameters))
  {
    params := map[];
    ghost var all := ParseParams(parameters);
    for i := 0 to |parameters|
      invariant params == ParamMap(all[..i])
    {
      var (k, v) := Partition(parameters[i]);
      params := params[k := Unescape(v)];
      assert all[..i + 1][..i] == all[..i];
    }
    assert all[..|all|] == all;
  }

  method ParseQrCode(value: string) returns (r: Result<(string, string)>)
    ensures r == Meaning(Tokenize(value))
  {
    hide Tokenize, GlobalParams, ZigbeeInterfaces, ParamMap, Split;
    var globalParams: map<string, string> := map[];
    var zigbeeParams: Option<map<string, string>> := None;
    var lists := SplitQrCode(RemoveSpaces(value), '%');
    ghost var xs := Tokenize(value);
    TokenizeIs(value);
    NothingRead(xs);

    for i := 0 to |lists|
      invariant globalParams == ParamMap(GlobalParams(xs[..i]))
      invariant |ZigbeeInterfaces(xs[..i])| == if zigbeeParams.None? then 0 else 1
      invariant zigbeeParams.Some? ==> zigbeeParams.value == ParamMap(ZigbeeParams(ZigbeeInterfaces(xs[..i])[0]))
    {
      ReadOneMore(xs, i);
      var parts := SplitQrCode(lists[i], '$');
      var (key, shortcut) := Partition(parts[0]);
      var params := BuildParams(parts[1..]);
      if key == "G" {
        globalParams := globalParams + params;
      } else if key == "Z" {
        if zigbeeParams.Some? {
          ZigbeeInterfacesGrow(xs, i + 1);
          return Error(MoreThanOneZigbeeInterface);
        }
        ParamMapShortcut(xs[i]);
        zigbeeParams := Some(params + if shortcut != "" then map["A" := shortcut] else map[]);
      }
    }
    assert xs[..|lists|] == xs;

    if zigbeeParams.None? {
      return Error(NoZigbeeInterface);
    }
    var params := globalParams + zigbeeParams.value;
    ghost var all := GlobalParams(xs) + ZigbeeParams(ZigbeeInterfaces(xs)[0]);
    ParamMapAppend(GlobalParams(xs), ZigbeeParams(ZigbeeInterfaces(xs)[0]));
    ParamMapIsLastValue(all, "A");
    ParamMapIsLastValue(all, "I");
    if "A" !in params || "I" !in params {
      return Error(MissingParameter);
    }
    if |params["I"]| != INSTALL_CODE_CHARACTERS {
      return Error(InstallCodeLength);
    }
    return Ok((params["I"], params["A"]));
  }

  lemma NothingRead(xs: seq<Interface>)
    ensures ParamMap(GlobalParams(xs[..0])) == map[] && ZigbeeInterfaces(xs[..0]) == []
  {
  }

  lemma ReadOneMore(xs: seq<Interface>, i: nat)
    requires i < |xs|
    ensures ParamMap(GlobalParams(xs[..i + 1]))
         == ParamMap(GlobalParams(xs[..i])) + if xs[i].key == "G" then ParamMap(xs[i].params) else map[]
    ensures ZigbeeInterfaces(xs[..i + 1]) == ZigbeeInterfaces(xs[..i]) + if xs[i].key == "Z" then [xs[i]] else []
  {
    assert xs[..i + 1][..i] == xs[..i];
    ParamMapAppend(GlobalParams(xs[..i]), xs[i].params);
    assert GlobalParams(xs[..i]) + [] == GlobalParams(xs[..i]);
  }

  lemma TokenizeIs(value: string)
    ensures Tokenize(value) == ParseInterfaces(Split(RemoveSpaces(value), '%'))
  {
  }

  lemma ParamMapShortcut(x: Interface)
    ensures ParamMap(ZigbeeParams(x)) == ParamMap(x.params) + if x.shortcut != "" then map["A" := x.shortcut] else map[]
  {
    if x.shortcut != "" {
      var one := [("A", x.shortcut)];
      ParamMapAppend(x.params, one);
      assert one[..0] == [] && ParamMap(one) == map["A" := x.shortcut];
    } else {
      assert ZigbeeParams(x) == x.params;
    }
  }

  lemma {:induction false} ZigbeeInterfacesGrow(xs: seq<Interface>, n: nat)
    requires n <= |xs|
    ensures |ZigbeeInterfaces(xs[..n])| <= |ZigbeeInterfaces(xs)|
    decreases |xs| - n
  {
    if n == |xs| {
      assert xs[..n] == xs;
    } else {
      assert xs[..n + 1][..n] == xs[..n];
      ZigbeeInterfacesGrow(xs, n + 1);
    }
  }

  /** Reading back what was written: the code says what its interfaces say. */
  lemma WrittenCodeMeans(xs: seq<Interface>)
    requires xs != [] && forall i :: 0 <= i < |xs| ==> WellFormed(xs[i])
    ensures Meaning(Tokenize(Encode(xs))) == Meaning(xs)
  {
    RoundTrip(xs);
  }
}
