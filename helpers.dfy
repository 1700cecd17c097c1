/**
 * `ParseTags`: the lexer for Go's `key:"value"` struct tag convention, the
 * splitting of each value into a name and options, and the merge of
 * repeated keys; and `indirect`, one level of pointer removal.
 *
 * The functions `Entries` and `Parse` specify the parse: `Entries` reads the
 * tag string into the list of tags in the order written, `Parse` merges
 * repeated keys.  The method `ParseTags` is the byte-scanning loop of Go's
 * `ParseTags`, proved to compute `Parse`.
 */
module TagParser {
  import opened Wrappers
  import opened GoStrings
  import opened Tags
  import opened Reflect

  /** `ErrTagSyntax`, the only error of the parser. */
  datatype TagError = ErrTagSyntax

  /** A byte allowed in a tag key: above space, and neither `:`, `"` nor DEL. */
  predicate IsKeyChar(c: char) {
    c > ' ' && c != ':' && c != '"' && c != '\U{007F}'
  }

  /** The number of leading spaces (only U+0020 counts). */
  function LeadingBlanks(s: string): (n: nat)
    ensures n <= |s|
    ensures forall i | 0 <= i < n :: s[i] == ' '
    ensures n == |s| || s[n] != ' '
  {
    if s != [] && s[0] == ' ' then 1 + LeadingBlanks(s[1..]) else 0
  }

  /** The length of the longest prefix of key characters. */
  function KeyLength(s: string): (n: nat)
    ensures n <= |s|
    ensures forall i | 0 <= i < n :: IsKeyChar(s[i])
    ensures n == |s| || !IsKeyChar(s[n])
  {
    if s != [] && IsKeyChar(s[0]) then 1 + KeyLength(s[1..]) else 0
  }

  /**
   * Where the scan for the closing quote, started at `i`, stops: at the
   * first `"` that is not the character after a backslash, or past the end.
   */
  function QuoteEnd(s: string, i: nat): (j: nat)
    ensures j >= i
    ensures j < |s| ==> s[j] == '"'
    decreases |s| - i
  {
    if i >= |s| || s[i] == '"' then i
    else if s[i] == '\\' then QuoteEnd(s, i + 2)
    else QuoteEnd(s, i + 1)
  }

  /** Every piece of `ps`, trimmed of white space. */
  function Trims(ps: seq<string>): (ts: seq<string>)
    ensures |ts| == |ps|
    ensures forall i | 0 <= i < |ps| :: ts[i] == TrimSpace(ps[i])
  {
    seq(|ps|, i requires 0 <= i < |ps| => TrimSpace(ps[i]))
  }

  /** `ps` with an empty first piece replaced by the field name. */
  function Substituted(fieldName: string, ps: seq<string>): (r: seq<string>)
    ensures |r| == |ps|
    ensures forall i | 0 <= i < |ps| :: r[i] == if i == 0 && ps[0] == "" then fieldName else ps[i]
  {
    if ps != [] && ps[0] == "" then [fieldName] + ps[1..] else ps
  }

  /** The non-empty pieces of `ps`, in order. */
  function NonEmpty(ps: seq<string>): (r: seq<string>)
    ensures forall i | 0 <= i < |r| :: r[i] != ""
  {
    if ps == [] then []
    else if ps[0] == "" then NonEmpty(ps[1..])
    else [ps[0]] + NonEmpty(ps[1..])
  }

  lemma {:induction false} NonEmptyAppend(ps: seq<string>, p: string)
    ensures NonEmpty(ps + [p]) == NonEmpty(ps) + (if p == "" then [] else [p])
  {
    if ps != [] {
      assert (ps + [p])[1..] == ps[1..] + [p];
      NonEmptyAppend(ps[1..], p);
    }
  }

  lemma NonEmptyPrefix(ps: seq<string>, i: nat)
    requires i < |ps|
    ensures NonEmpty(ps[..i + 1]) == NonEmpty(ps[..i]) + (if ps[i] == "" then [] else [ps[i]])
  {
    assert ps[..i + 1] == ps[..i] + [ps[i]];
    NonEmptyAppend(ps[..i], ps[i]);
  }

  /**
   * The pieces a tag value stands for: split on commas, each trimmed, an
   * empty first piece replaced by the field name, empty pieces dropped.
   */
  function Pieces(fieldName: string, value: string): seq<string> {
    if value == "" then [] else NonEmpty(Substituted(fieldName, Trims(Split(value, ','))))
  }

  /** The tag built from a key and its unquoted value. */
  function TagOf(fieldName: string, key: string, value: string): Tag {
    var ps := Pieces(fieldName, value);
    if ps == [] then Tag(fieldName, key, "", []) else Tag(fieldName, key, ps[0], ps[1..])
  }

  /**
   * Lexes one `key:"value"` entry at the start of `t` (which does not start
   * with a space): the key, the unquoted value and the text after the
   * closing quote.
   */
  function Lex(t: string): (r: Result<(string, string, string), TagError>)
    ensures r.Success? ==> |r.value.2| < |t|
  {
    var k := KeyLength(t);
    if k == 0 || k + 1 >= |t| || t[k] != ':' || t[k + 1] != '"' then Failure(ErrTagSyntax)
    else
      var rest := t[k + 1..];
      var j := QuoteEnd(rest, 1);
      if j >= |rest| then Failure(ErrTagSyntax)
      else
        match Unquote(rest[..j + 1])
        case None => Failure(ErrTagSyntax)
        case Some(v) => Success((t[..k], v, rest[j + 1..]))
  }

  /** Reads one entry at the start of `t`: the tag and the text after it. */
  function NextEntry(fieldName: string, t: string): (r: Result<(Tag, string), TagError>)
    ensures r.Success? ==> |r.value.1| < |t|
  {
    match Lex(t)
    case Failure(e) => Failure(e)
    case Success((key, v, rest)) => Success((TagOf(fieldName, key, v), rest))
  }

  /** The tags of a tag string in the order written, repeated keys included. */
  function Entries(fieldName: string, s: string): Result<seq<Tag>, TagError>
    decreases |s|
  {
    var t := s[LeadingBlanks(s)..];
    if t == [] then Success([])
    else
      match NextEntry(fieldName, t)
      case Failure(e) => Failure(e)
      case Success((tag, rest)) =>
        match Entries(fieldName, rest)
        case Failure(e) => Failure(e)
        case Success(es) => Success([tag] + es)
  }

  /** The keys of `ts`, in order. */
  function Keys(ts: seq<Tag>): (ks: seq<string>)
    ensures |ks| == |ts|
    ensures forall i | 0 <= i < |ts| :: ks[i] == ts[i].key
  {
    seq(|ts|, i requires 0 <= i < |ts| => ts[i].key)
  }

  /** `ts` with every entry of `t`'s key replaced by `t`. */
  function Overwrite(ts: seq<Tag>, t: Tag): (r: seq<Tag>)
    ensures |r| == |ts|
    ensures forall i | 0 <= i < |ts| :: r[i] == if ts[i].key == t.key then t else ts[i]
  {
    seq(|ts|, i requires 0 <= i < |ts| => if ts[i].key == t.key then t else ts[i])
  }

  /** Adds `t`: in place of an entry with the same key, or at the end. */
  function Merge(ts: seq<Tag>, t: Tag): seq<Tag> {
    if t.key in Keys(ts) then Overwrite(ts, t) else ts + [t]
  }

  /** Merges the entries one after the other, left to right. */
  function MergeAll(es: seq<Tag>): seq<Tag> {
    if es == [] then [] else Merge(MergeAll(es[..|es| - 1]), es[|es| - 1])
  }

  /** The result of parsing a tag string: its entries, repeated keys merged. */
  function Parse(fieldName: string, s: string): Result<seq<Tag>, TagError> {
    match Entries(fieldName, s)
    case Failure(e) => Failure(e)
    case Success(es) => Success(MergeAll(es))
  }

  /** `done` put in front of the entries of a successful read. */
  function Prepend(done: seq<Tag>, r: Result<seq<Tag>, TagError>): Result<seq<Tag>, TagError> {
    match r
    case Failure(e) => Failure(e)
    case Success(es) => Success(done + es)
  }

  /** One piece more of the loop in `ValuePieces`: trim, substitute when first, keep when non-empty. */
  lemma PiecesStep(fieldName: string, split: seq<string>, i: nat, pieces: seq<string>)
    requires i < |split|
    requires pieces == NonEmpty(Substituted(fieldName, Trims(split))[..i])
    ensures var opt := if i == 0 && TrimSpace(split[i]) == "" then fieldName else TrimSpace(split[i]);
      (if opt != "" then pieces + [opt] else pieces) == NonEmpty(Substituted(fieldName, Trims(split))[..i + 1])
  {
    NonEmptyPrefix(Substituted(fieldName, Trims(split)), i);
  }

  /** The loop over the comma-separated pieces of a non-empty tag value. */
  method ValuePieces(fieldName: string, value: string) returns (pieces: seq<string>)
    requires value != ""
    ensures pieces == Pieces(fieldName, value)
  {
    pieces := [];
    var split := Split(value, ',');
    var i := 0;
    while i < |split|
      invariant 0 <= i <= |split|
      invariant pieces == NonEmpty(Substituted(fieldName, Trims(split))[..i])
    {
      PiecesStep(fieldName, split, i, pieces);
      var opt := TrimSpace(split[i]);
      if i == 0 && opt == "" {
        opt := fieldName;
      }
      if opt != "" {
        pieces := pieces + [opt];
      }
      i := i + 1;
    }
    assert Substituted(fieldName, Trims(split))[..|split|] == Substituted(fieldName, Trims(split));
  }

  /** Builds the tag for a key and its unquoted value: the first piece is the name, the rest the options. */
  method NewTag(fieldName: string, key: string, value: string) returns (tag: Tag)
    ensures tag == TagOf(fieldName, key, value)
  {
    var name := "";
    var options: seq<string> := [];
    if value != "" {
      options := ValuePieces(fieldName, value);
      if |options| == 0 {
        options := [];
      } else if |options| == 1 {
        name := options[0];
        options := [];
      } else {
        name := options[0];
        options := options[1..];
      }
    }
    tag := Tag(fieldName, key, name, options);
  }

  /** Adds `tag` to `tags`, overwriting in place every entry with the same key. */
  method MergeTag(tags: seq<Tag>, tag: Tag) returns (merged: seq<Tag>)
    ensures merged == Merge(tags, tag)
  {
    merged := tags;
    var overwritten := false;
    var i := 0;
    while i < |merged|
      invariant 0 <= i <= |merged| == |tags|
      invariant forall m | 0 <= m < i :: merged[m] == if tags[m].key == tag.key then tag else tags[m]
      invariant forall m | i <= m < |merged| :: merged[m] == tags[m]
      invariant overwritten <==> exists m | 0 <= m < i :: tags[m].key == tag.key
    {
      if merged[i].key == tag.key {
        merged := merged[i := tag];
        overwritten := true;
      }
      i := i + 1;
    }
    if !overwritten {
      merged := merged + [tag];
    } else {
      assert tag.key in Keys(tags);
    }
  }

  /** The loop skipping leading spaces. */
  method SkipBlanks(s: string) returns (i: nat)
    ensures i == LeadingBlanks(s)
  {
    i := 0;
    while i < |s| && s[i] == ' '
      invariant i <= |s|
      invariant LeadingBlanks(s) == i + LeadingBlanks(s[i..])
    {
      assert s[i..][1..] == s[i + 1..];
      i := i + 1;
    }
  }

  /** The loop scanning to the colon. */
  method ScanKey(s: string) returns (i: nat)
    ensures i == KeyLength(s)
  {
    i := 0;
    while i < |s| && IsKeyChar(s[i])
      invariant i <= |s|
      invariant KeyLength(s) == i + KeyLength(s[i..])
    {
      assert s[i..][1..] == s[i + 1..];
      i := i + 1;
    }
  }

  /** The loop scanning the quoted string for its closing quote. */
  method ScanQuote(s: string) returns (i: nat)
    ensures i == QuoteEnd(s, 1)
  {
    i := 1;
    while i < |s| && s[i] != '"'
      invariant 1 <= i
      invariant QuoteEnd(s, i) == QuoteEnd(s, 1)
      decreases |s| - i
    {
      if s[i] == '\\' {
        i := i + 1;
      }
      i := i + 1;
    }
  }

  /**
   * One pass of the outer loop of `ParseTags` after the leading spaces: the
   * key, the quoted value and the tag built from them, or the syntax error.
   */
  method ReadEntry(fieldName: string, t: string) returns (r: Result<(Tag, string), TagError>)
    ensures r == NextEntry(fieldName, t)
  {
    var i := ScanKey(t);
    if i == 0 || i + 1 >= |t| || t[i] != ':' || t[i + 1] != '"' {
      assert Lex(t) == Failure(ErrTagSyntax);
      return Failure(ErrTagSyntax);
    }
    var key := t[..i];
    var s := t[i + 1..];
    i := ScanQuote(s);
    if i >= |s| {
      assert Lex(t) == Failure(ErrTagSyntax);
      return Failure(ErrTagSyntax);
    }
    var qvalue := s[..i + 1];
    var value := Unquote(qvalue);
    if value.None? {
      assert Lex(t) == Failure(ErrTagSyntax);
      return Failure(ErrTagSyntax);
    }
    assert Lex(t) == Success((key, value.value, s[i + 1..]));
    var tag := NewTag(fieldName, key, value.value);
    assert NextEntry(fieldName, t) == Success((tag, s[i + 1..]));
    return Success((tag, s[i + 1..]));
  }

  /** `Entries` of a string whose first entry has been read. */
  lemma EntriesStep(fieldName: string, s: string, done: seq<Tag>, tag: Tag, rest: string)
    requires s[LeadingBlanks(s)..] != []
    requires NextEntry(fieldName, s[LeadingBlanks(s)..]) == Success((tag, rest))
    ensures Prepend(done, Entries(fieldName, s)) == Prepend(done + [tag], Entries(fieldName, rest))
  {
    match Entries(fieldName, rest)
    case Failure(_) =>
    case Success(es) => assert done + ([tag] + es) == done + [tag] + es;
  }

  /** `MergeAll` of one more entry. */
  lemma MergeAllSnoc(done: seq<Tag>, tag: Tag)
    ensures MergeAll(done + [tag]) == Merge(MergeAll(done), tag)
  {
    assert (done + [tag])[..|done|] == done;
  }

  /**
   * `ParseTags(fieldName, stag)`: all or nothing; on a syntax error the tag
   * list is empty (nil in Go).
   */
  method ParseTags(fieldName: string, stag: string) returns (tags: seq<Tag>, err: Option<TagError>)
    ensures err.Some? ==> tags == []
    ensures Parse(fieldName, stag) == if err.Some? then Failure(err.value) else Success(tags)
  {
    tags, err := [], None;
    if stag == "" {
      return;
    }
    var s := stag;
    ghost var done: seq<Tag> := [];
    assert Prepend([], Entries(fieldName, s)) == Entries(fieldName, s) by {
      if Entries(fieldName, s).Success? {
        assert [] + Entries(fieldName, s).value == Entries(fieldName, s).value;
      }
    }
    while s != ""
      invariant tags == MergeAll(done)
      invariant Prepend(done, Entries(fieldName, s)) == Entries(fieldName, stag)
      decreases |s|
    {
      var i := SkipBlanks(s);
      if s[i..] == "" {
        assert done + [] == done;
        s := s[i..];
        break;
      }
      var entry := ReadEntry(fieldName, s[i..]);
      if entry.Failure? {
        tags, err := [], Some(ErrTagSyntax);
        return;
      }
      var (tag, rest) := entry.value;
      EntriesStep(fieldName, s, done, tag, rest);
      MergeAllSnoc(done, tag);
      tags := MergeTag(tags, tag);
      done := done + [tag];
      s := rest;
    }
    if s == "" {
      assert done + [] == done;
    }
  }

  // Properties of the parse.

  /** A tag string made only of spaces (the empty one included) parses to no tags. */
  lemma ParseBlank(fieldName: string, s: string)
    requires forall i | 0 <= i < |s| :: s[i] == ' '
    ensures Parse(fieldName, s) == Success([])
  {
    assert LeadingBlanks(s) == |s|;
  }

  /** An option: non-empty, trimmed of white space and free of commas. */
  predicate IsOption(p: string) {
    p != "" && Trimmed(p) && ',' !in p
  }

  /** Trimming keeps a string free of a character it was free of. */
  lemma TrimSpaceKeepsOut(s: string, c: char)
    requires c !in s
    ensures c !in TrimSpace(s)
  {
  }

  /** Every trimmed piece of a value is empty or an option. */
  lemma TrimmedPieces(value: string)
    ensures forall i | 0 <= i < |Trims(Split(value, ','))| ::
      Trims(Split(value, ','))[i] == "" || IsOption(Trims(Split(value, ','))[i])
  {
    var ps := Split(value, ',');
    forall i | 0 <= i < |ps|
      ensures Trims(ps)[i] == "" || IsOption(Trims(ps)[i])
    {
      TrimSpaceKeepsOut(ps[i], ',');
    }
  }

  /** Dropping the empty pieces of pieces that are empty or options leaves options. */
  lemma {:induction false} NonEmptyOptions(ps: seq<string>)
    requires forall i | 0 <= i < |ps| :: ps[i] == "" || IsOption(ps[i])
    ensures forall i | 0 <= i < |NonEmpty(ps)| :: IsOption(NonEmpty(ps)[i])
  {
    if ps != [] {
      NonEmptyOptions(ps[1..]);
    }
  }

  /** Dropping the empty pieces of non-empty pieces changes nothing. */
  lemma {:induction false} NonEmptyOfNonEmpty(ps: seq<string>)
    requires forall i | 0 <= i < |ps| :: ps[i] != ""
    ensures NonEmpty(ps) == ps
  {
    if ps != [] {
      NonEmptyOfNonEmpty(ps[1..]);
      assert [ps[0]] + ps[1..] == ps;
    }
  }

  /**
   * The pieces of a non-empty value: the first trimmed piece, or the field
   * name in its place when it is empty, unless that is empty too; then the
   * non-empty trimmed pieces after it.
   */
  lemma PiecesShape(fieldName: string, value: string)
    requires value != ""
    ensures var ts := Trims(Split(value, ','));
      var first := if ts[0] == "" then fieldName else ts[0];
      Pieces(fieldName, value) == (if first == "" then [] else [first]) + NonEmpty(ts[1..])
  {
    var ts := Trims(Split(value, ','));
    var sub := Substituted(fieldName, ts);
    assert sub[1..] == ts[1..];
  }

  /**
   * The tag built from a key and a value: it carries the field name and the
   * key; its options are options; its name is empty for an empty value, is
   * the first trimmed piece when that is not empty, and is the field name
   * when the first trimmed piece is empty and the field name is not.
   */
  lemma TagOfShape(fieldName: string, key: string, value: string)
    ensures TagOf(fieldName, key, value).field == fieldName
    ensures TagOf(fieldName, key, value).key == key
    ensures forall i | 0 <= i < |TagOf(fieldName, key, value).options| ::
      IsOption(TagOf(fieldName, key, value).options[i])
    ensures TagOf(fieldName, key, value).name == "" ==> TagOf(fieldName, key, value).options == []
    ensures var name := TagOf(fieldName, key, value).name; name == "" || name == fieldName || IsOption(name)
    ensures value == "" ==> TagOf(fieldName, key, value).name == ""
    ensures value != "" && TrimSpace(Split(value, ',')[0]) != "" ==>
      TagOf(fieldName, key, value).name == TrimSpace(Split(value, ',')[0])
    ensures value != "" && TrimSpace(Split(value, ',')[0]) == "" && fieldName != "" ==>
      TagOf(fieldName, key, value).name == fieldName
  {
    if value != "" {
      var ts := Trims(Split(value, ','));
      var first := if ts[0] == "" then fieldName else ts[0];
      var later := NonEmpty(ts[1..]);
      var ps := Pieces(fieldName, value);
      PiecesShape(fieldName, value);
      assert ps == (if first == "" then [] else [first]) + later;
      TrimmedPieces(value);
      NonEmptyOptions(ts[1..]);
      if first == "" {
        assert ps == later;
      } else {
        assert ps[0] == first && ps[1..] == later;
      }
    }
  }

  /** With a non-empty field name, the name is empty exactly when the value is. */
  lemma NameEmptyIffValueEmpty(fieldName: string, key: string, value: string)
    requires fieldName != ""
    ensures TagOf(fieldName, key, value).name == "" <==> value == ""
  {
    TagOfShape(fieldName, key, value);
  }

  /** A tag as the parser produces it for the field `fieldName`. */
  predicate WellFormed(fieldName: string, t: Tag) {
    && t.field == fieldName
    && t.key != ""
    && (forall i | 0 <= i < |t.key| :: IsKeyChar(t.key[i]))
    && (forall i | 0 <= i < |t.options| :: IsOption(t.options[i]))
    && (t.name == "" ==> t.options == [])
    && (t.name == "" || t.name == fieldName || IsOption(t.name))
  }

  /** A key that lexes is non-empty, made of key characters and directly followed by `:"`. */
  lemma LexKey(t: string)
    requires Lex(t).Success?
    ensures var key := Lex(t).value.0;
      && key != ""
      && (forall i | 0 <= i < |key| :: IsKeyChar(key[i]))
      && |key| + 1 < |t| && t[..|key|] == key && t[|key|] == ':' && t[|key| + 1] == '"'
  {
    var k := KeyLength(t);
    assert !(k == 0 || k + 1 >= |t| || t[k] != ':' || t[k + 1] != '"');
  }

  /** The tag of an entry that reads is well formed, with the key lexed. */
  lemma NextEntryShape(fieldName: string, t: string)
    requires NextEntry(fieldName, t).Success?
    ensures Lex(t).Success?
    ensures WellFormed(fieldName, NextEntry(fieldName, t).value.0)
    ensures NextEntry(fieldName, t).value.0.key == Lex(t).value.0
  {
    var (key, v, rest) := Lex(t).value;
    LexKey(t);
    TagOfShape(fieldName, key, v);
  }

  /** Every entry read from a tag string is well formed. */
  lemma {:induction false} EntriesWellFormed(fieldName: string, s: string)
    requires Entries(fieldName, s).Success?
    ensures forall i | 0 <= i < |Entries(fieldName, s).value| :: WellFormed(fieldName, Entries(fieldName, s).value[i])
    decreases |s|
  {
    var t := s[LeadingBlanks(s)..];
    if t != [] {
      var (tag, rest) := NextEntry(fieldName, t).value;
      NextEntryShape(fieldName, t);
      EntriesWellFormed(fieldName, rest);
      assert Entries(fieldName, s).value == [tag] + Entries(fieldName, rest).value;
    }
  }

  /** Each key once, in order. */
  predicate Distinct(ks: seq<string>) {
    forall i, j | 0 <= i < j < |ks| :: ks[i] != ks[j]
  }

  /** The keys `ks` in order of first occurrence, each once. */
  function Dedup(ks: seq<string>): (r: seq<string>)
    ensures forall k :: k in r <==> k in ks
    ensures Distinct(r)
  {
    if ks == [] then []
    else
      var d := Dedup(ks[..|ks| - 1]);
      assert forall k :: k in ks <==> k in ks[..|ks| - 1] || k == ks[|ks| - 1];
      if ks[|ks| - 1] in d then d else d + [ks[|ks| - 1]]
  }

  /** The last entry of `es` with key `k`. */
  function Last(es: seq<Tag>, k: string): (t: Tag)
    requires k in Keys(es)
    ensures t in es && t.key == k
  {
    if es[|es| - 1].key == k then es[|es| - 1]
    else
      assert Keys(es) == Keys(es[..|es| - 1]) + [es[|es| - 1].key];
      Last(es[..|es| - 1], k)
  }

  /** Merging one more entry keeps the merged keys in order of first occurrence. */
  lemma MergeKeysStep(init: seq<Tag>, e: Tag)
    requires Keys(MergeAll(init)) == Dedup(Keys(init))
    ensures Keys(MergeAll(init + [e])) == Dedup(Keys(init + [e]))
  {
    var es := init + [e];
    var m := MergeAll(init);
    assert MergeAll(es) == Merge(m, e) by {
      assert es[..|es| - 1] == init;
    }
    var ks := Keys(es);
    assert Dedup(ks) == if e.key in Keys(m) then Keys(m) else Keys(m) + [e.key] by {
      assert ks[..|ks| - 1] == Keys(init);
    }
    if e.key in Keys(m) {
      assert Keys(Overwrite(m, e)) == Keys(m);
    } else {
      assert Keys(m + [e]) == Keys(m) + [e.key];
    }
  }

  /** Merging one more entry keeps, for each key, the last entry written. */
  lemma MergeLastStep(init: seq<Tag>, e: Tag)
    requires Keys(MergeAll(init)) == Dedup(Keys(init))
    requires forall i | 0 <= i < |MergeAll(init)| :: MergeAll(init)[i] == Last(init, MergeAll(init)[i].key)
    ensures Keys(MergeAll(init + [e])) == Dedup(Keys(init + [e]))
    ensures forall i | 0 <= i < |MergeAll(init + [e])| ::
      MergeAll(init + [e])[i] == Last(init + [e], MergeAll(init + [e])[i].key)
  {
    var es := init + [e];
    assert es[..|es| - 1] == init;
    var m := MergeAll(init);
    MergeKeysStep(init, e);
    forall i | 0 <= i < |MergeAll(es)|
      ensures MergeAll(es)[i] == Last(es, MergeAll(es)[i].key)
    {
      if MergeAll(es)[i].key != e.key {
        assert MergeAll(es)[i] == m[i];
        assert m[i].key in Keys(m);
      }
    }
  }

  /**
   * Last write wins, first position stays: the merged list holds each key of
   * the entries once, in order of first occurrence, with the last entry
   * written for that key.
   */
  lemma {:induction false} MergeAllSpec(es: seq<Tag>)
    ensures Keys(MergeAll(es)) == Dedup(Keys(es))
    ensures forall i | 0 <= i < |MergeAll(es)| :: MergeAll(es)[i] == Last(es, MergeAll(es)[i].key)
  {
    if es != [] {
      var init, e := es[..|es| - 1], es[|es| - 1];
      assert init + [e] == es;
      MergeAllSpec(init);
      MergeLastStep(init, e);
    }
  }

  /** The merged list holds each key once. */
  lemma MergeAllDistinct(es: seq<Tag>)
    ensures Distinct(Keys(MergeAll(es)))
  {
    MergeAllSpec(es);
  }

  /** Entries with distinct keys merge to themselves. */
  lemma {:induction false} MergeAllOfDistinct(es: seq<Tag>)
    requires Distinct(Keys(es))
    ensures MergeAll(es) == es
  {
    if es != [] {
      var init, e := es[..|es| - 1], es[|es| - 1];
      assert init + [e] == es;
      DistinctKeysInit(es);
      MergeAllOfDistinct(init);
    }
  }

  /** Dropping the last of entries with distinct keys keeps them distinct, without the last key. */
  lemma DistinctKeysInit(es: seq<Tag>)
    requires es != [] && Distinct(Keys(es))
    ensures Distinct(Keys(es[..|es| - 1]))
    ensures es[|es| - 1].key !in Keys(es[..|es| - 1])
  {
    var ks := Keys(es);
    assert Keys(es[..|es| - 1]) == ks[..|es| - 1];
  }

  /** Merging keeps entries well formed. */
  lemma {:induction false} MergeAllWellFormed(fieldName: string, es: seq<Tag>)
    requires forall i | 0 <= i < |es| :: WellFormed(fieldName, es[i])
    ensures forall i | 0 <= i < |MergeAll(es)| :: WellFormed(fieldName, MergeAll(es)[i])
  {
    if es != [] {
      MergeAllWellFormed(fieldName, es[..|es| - 1]);
    }
  }

  /**
   * A parse that succeeds gives well-formed tags for the field with
   * pairwise distinct keys.
   */
  lemma ParseResult(fieldName: string, s: string)
    requires Parse(fieldName, s).Success?
    ensures forall i | 0 <= i < |Parse(fieldName, s).value| :: WellFormed(fieldName, Parse(fieldName, s).value[i])
    ensures Distinct(Keys(Parse(fieldName, s).value))
  {
    EntriesWellFormed(fieldName, s);
    MergeAllWellFormed(fieldName, Entries(fieldName, s).value);
    MergeAllDistinct(Entries(fieldName, s).value);
  }

  /** A tag that its printed form `key:"name,opt1,opt2"` reproduces exactly. */
  predicate Canonical(fieldName: string, t: Tag) {
    WellFormed(fieldName, t) && (t.name == "" || IsOption(t.name))
  }

  /** The printed form `key:"name,opt1,opt2"` of a tag. */
  function Format(t: Tag): string {
    t.key + [':'] + Quote(Join([t.name] + t.options, ','))
  }

  /** The printed forms of tags, separated by single spaces. */
  function Serialize(ts: seq<Tag>): string {
    if ts == [] then ""
    else if |ts| == 1 then Format(ts[0])
    else Format(ts[0]) + [' '] + Serialize(ts[1..])
  }

  /** The scan for the closing quote skips over an escaped string. */
  lemma {:induction false} QuoteEndEscape(p: string, s: string, rest: string)
    ensures QuoteEnd(p + Escape(s) + ['"'] + rest, |p|) == |p| + |Escape(s)|
    decreases s
  {
    var x := p + Escape(s) + ['"'] + rest;
    if s == [] {
      assert x[|p|] == '"';
    } else {
      var e := EscapeChar(s[0]);
      assert x == (p + e) + Escape(s[1..]) + ['"'] + rest;
      assert x[|p|..|p| + |e|] == e;
      QuoteEndStep(x, |p|, s[0]);
      QuoteEndEscape(p + e, s[1..], rest);
    }
  }

  /** The closing-quote scan passes over one escaped character. */
  lemma QuoteEndStep(x: string, i: nat, c: char)
    requires i + |EscapeChar(c)| <= |x| && x[i..i + |EscapeChar(c)|] == EscapeChar(c)
    ensures QuoteEnd(x, i) == QuoteEnd(x, i + |EscapeChar(c)|)
  {
    assert x[i] == EscapeChar(c)[0];
  }

  /** Options joined by commas split back into the same pieces. */
  lemma PiecesJoin(fieldName: string, ps: seq<string>)
    requires |ps| >= 1
    requires forall i | 0 <= i < |ps| :: IsOption(ps[i])
    ensures Pieces(fieldName, Join(ps, ',')) == ps
  {
    SplitJoin(ps, ',');
    assert |Join(ps, ',')| >= |ps[0]|;
    var ts := Trims(ps);
    forall i | 0 <= i < |ps|
      ensures ts[i] == ps[i]
    {
      TrimSpaceOfTrimmed(ps[i]);
    }
    assert ts == ps;
    NonEmptyOfNonEmpty(ps);
  }

  /** A key of key characters is scanned exactly up to the colon after it. */
  lemma KeyLengthOf(key: string, rest: string)
    requires forall i | 0 <= i < |key| :: IsKeyChar(key[i])
    ensures KeyLength(key + [':'] + rest) == |key|
  {
    var x := key + [':'] + rest;
    assert x[|key|] == ':';
    assert forall i | 0 <= i < |key| :: x[i] == key[i];
  }

  /** `Lex` succeeds once the key, the colon, the quoted value and its unquoting are in place. */
  lemma LexWhen(t: string, k: nat, j: nat, v: string)
    requires k == KeyLength(t) && k > 0 && k + 1 < |t| && t[k] == ':' && t[k + 1] == '"'
    requires j == QuoteEnd(t[k + 1..], 1) && j < |t[k + 1..]|
    requires Unquote(t[k + 1..][..j + 1]) == Some(v)
    ensures Lex(t) == Success((t[..k], v, t[k + 1..][j + 1..]))
  {
  }

  /** The key part of `key:"…"`: scanned exactly to the colon, which a quote follows. */
  lemma KeyPart(key: string, q: string)
    requires forall i | 0 <= i < |key| :: IsKeyChar(key[i])
    requires q != [] && q[0] == '"'
    ensures var x := key + [':'] + q;
      && KeyLength(x) == |key| && |key| + 1 < |x| && x[|key|] == ':' && x[|key| + 1] == '"'
      && x[..|key|] == key && x[|key| + 1..] == q
  {
    var x := key + [':'] + q;
    KeyLengthOf(key, q);
    assert x[..|key|] == key;
    assert x[|key| + 1..] == q;
  }

  /** The quoted part: the scan stops at the closing quote and the literal unquotes to the value. */
  lemma QuotedPart(v: string, rest: string)
    ensures var q := Quote(v) + rest;
      && QuoteEnd(q, 1) == |Escape(v)| + 1
      && |Escape(v)| + 1 < |q|
      && Unquote(q[..|Escape(v)| + 2]) == Some(v)
      && q[|Escape(v)| + 2..] == rest
  {
    var q := Quote(v) + rest;
    assert q == ['"'] + Escape(v) + ['"'] + rest;
    QuoteEndEscape(['"'], v, rest);
    assert q[..|Escape(v)| + 2] == Quote(v);
    UnquoteQuote(v);
    assert q[|Escape(v)| + 2..] == rest;
  }

  /** `key:"value"` lexes into its key and its value, whatever follows. */
  lemma LexQuoted(key: string, v: string, rest: string)
    requires key != [] && forall i | 0 <= i < |key| :: IsKeyChar(key[i])
    ensures Lex(key + [':'] + (Quote(v) + rest)) == Success((key, v, rest))
  {
    var q := Quote(v) + rest;
    KeyPart(key, q);
    QuotedPart(v, rest);
    LexWhen(key + [':'] + q, |key|, |Escape(v)| + 1, v);
  }

  /** The printed form of a tag lexes into its key and value. */
  lemma LexFormat(t: Tag, rest: string)
    requires t.key != "" && forall i | 0 <= i < |t.key| :: IsKeyChar(t.key[i])
    ensures Lex(Format(t) + rest) == Success((t.key, Join([t.name] + t.options, ','), rest))
  {
    var v := Join([t.name] + t.options, ',');
    assert Format(t) + rest == t.key + [':'] + (Quote(v) + rest);
    LexQuoted(t.key, v, rest);
  }

  /** The printed form of a canonical tag reads back as that tag. */
  lemma NextEntryFormat(fieldName: string, t: Tag, rest: string)
    requires Canonical(fieldName, t)
    ensures NextEntry(fieldName, Format(t) + rest) == Success((t, rest))
  {
    LexFormat(t, rest);
    if t.name != "" {
      PiecesJoin(fieldName, [t.name] + t.options);
    }
  }

  /** A space in front of a tag string changes nothing. */
  lemma EntriesSpace(fieldName: string, x: string)
    ensures Entries(fieldName, [' '] + x) == Entries(fieldName, x)
  {
    assert ([' '] + x)[1..] == x;
    assert ([' '] + x)[LeadingBlanks([' '] + x)..] == x[LeadingBlanks(x)..];
  }

  /** `Entries` of a string that starts with an entry. */
  lemma EntriesCons(fieldName: string, x: string, t: Tag, rest: string)
    requires x != [] && x[0] != ' '
    requires NextEntry(fieldName, x) == Success((t, rest))
    ensures Entries(fieldName, x) == Prepend([t], Entries(fieldName, rest))
  {
    assert LeadingBlanks(x) == 0;
    assert x[0..] == x;
  }

  /** The printed form of tags starting with a canonical one reads that tag first. */
  lemma SerializeStep(fieldName: string, ts: seq<Tag>)
    requires ts != [] && Canonical(fieldName, ts[0])
    ensures Entries(fieldName, Serialize(ts)) == Prepend([ts[0]], Entries(fieldName, Serialize(ts[1..])))
  {
    var t := ts[0];
    var rest := if |ts| == 1 then "" else [' '] + Serialize(ts[1..]);
    var x := Serialize(ts);
    assert x == Format(t) + rest;
    NextEntryFormat(fieldName, t, rest);
    assert x[0] == t.key[0];
    EntriesCons(fieldName, x, t, rest);
    if |ts| > 1 {
      EntriesSpace(fieldName, Serialize(ts[1..]));
    }
  }

  /** The printed form of canonical tags reads back as those tags, in order. */
  lemma {:induction false} EntriesSerialize(fieldName: string, ts: seq<Tag>)
    requires forall i | 0 <= i < |ts| :: Canonical(fieldName, ts[i])
    ensures Entries(fieldName, Serialize(ts)) == Success(ts)
  {
    if ts != [] {
      assert [ts[0]] + ts[1..] == ts;
      SerializeStep(fieldName, ts);
      EntriesSerialize(fieldName, ts[1..]);
    }
  }

  /** Printing canonical tags with distinct keys and parsing again gives them back. */
  lemma ParseSerialize(fieldName: string, ts: seq<Tag>)
    requires forall i | 0 <= i < |ts| :: Canonical(fieldName, ts[i])
    requires Distinct(Keys(ts))
    ensures Parse(fieldName, Serialize(ts)) == Success(ts)
  {
    EntriesSerialize(fieldName, ts);
    MergeAllOfDistinct(ts);
  }

  /**
   * Printing the tags a tag string parses to and parsing again gives the
   * same tags, for a field name that is itself a valid option (as every Go
   * field name is).
   */
  lemma ParseReparse(fieldName: string, s: string)
    requires IsOption(fieldName)
    requires Parse(fieldName, s).Success?
    ensures Parse(fieldName, Serialize(Parse(fieldName, s).value)) == Parse(fieldName, s)
  {
    ParseResult(fieldName, s);
    ParseSerialize(fieldName, Parse(fieldName, s).value);
  }

  /** `bad`, a key without a colon, is a syntax error. */
  lemma ExampleMissingColon()
    ensures Parse("F1", "bad") == Failure(ErrTagSyntax)
  {
    assert KeyLength("bad") == 3 by {
      assert "bad"[1..] == "ad" && "ad"[1..] == "d" && "d"[1..] == "";
    }
    assert LeadingBlanks("bad") == 0;
    assert "bad"[0..] == "bad";
  }

  /** A value `,opt1,opt2` stands for the field name followed by the options. */
  lemma PiecesEmptyFirst(fieldName: string, ps: seq<string>)
    requires fieldName != "" && |ps| >= 1
    requires forall i | 0 <= i < |ps| :: IsOption(ps[i])
    ensures Pieces(fieldName, Join([""] + ps, ',')) == [fieldName] + ps
  {
    var qs := [""] + ps;
    var v := Join(qs, ',');
    assert Split(v, ',') == qs by {
      SplitJoin(qs, ',');
    }
    assert Trims(qs) == qs by {
      forall i | 0 <= i < |qs|
        ensures TrimSpace(qs[i]) == qs[i]
      {
        if i > 0 {
          TrimSpaceOfTrimmed(qs[i]);
        }
      }
    }
    assert qs[1..] == ps;
    assert NonEmpty(ps) == ps by {
      NonEmptyOfNonEmpty(ps);
    }
    PiecesShape(fieldName, v);
  }

  /** The value `f1,omitempty` on field `F1`: name `f1`, option `omitempty`. */
  lemma ExampleNameAndOption()
    ensures TagOf("F1", "json", "f1,omitempty") == Tag("F1", "json", "f1", ["omitempty"])
  {
    assert Join(["f1", "omitempty"], ',') == "f1,omitempty";
    assert IsOption("f1") && IsOption("omitempty");
    PiecesJoin("F1", ["f1", "omitempty"]);
  }

  /** The value `,omitempty` on field `F1`: the empty name is replaced by `F1`. */
  lemma ExampleFieldNameSubstituted()
    ensures TagOf("F1", "json", ",omitempty") == Tag("F1", "json", "F1", ["omitempty"])
  {
    assert Join(["", "omitempty"], ',') == ",omitempty";
    assert IsOption("omitempty");
    PiecesEmptyFirst("F1", ["omitempty"]);
  }

  /** `indirect`: the pointee of a pointer type; any other type unchanged. */
  function Indirect(t: Type): (r: Type)
    ensures t.Kind() != Ptr ==> r == t
    ensures t.Kind() == Ptr ==> Pointer(r) == t
  {
    if t.Pointer? then t.elem else t
  }
}
