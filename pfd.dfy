/** The properties-for-deletion archiver (wikidata_pfd.py).

    One run reads three wiki pages (the listing of open requests, the year's archive and the
    watchlist notice template), looks at the discussion page of every request listed in the
    active part of the listing, moves closed requests to the archive, keeps the notice's list
    of property ids in step with the open requests, and saves the pages. The wiki client is not
    modelled: page texts are inputs, saves are the run's recorded effects. */
module Pfd {
  import opened Common
  import opened Text

  // ---------------------------------------------------------------------------
  // The watchlist notice: a fixed header, one PropertyRFD entry per id, a fixed footer

  const NoticePage := "Template:Watchlist summary/PFD"
  // The long literals are written as concatenations of short pieces, which lets the
  // verifier see which characters they hold.
  const NoticeHead := "<ul class='hlist'" + " style='display: " + "inline; margin: " + "0;'><onlyinclude>"
  const NoticeTail := "</onlyinclude></ul>"
  const EntryOpen := "{{PropertyRFD|"
  const EntryClose := "}}"

  /** `s.replace('P','').replace('p','')`: the property number without its letter. The
      result is `s` with every `P` and `p` deleted and the other characters kept in order. */
  function DropP(s: string): (r: string)
    ensures r == Without(Without(s, 'P'), 'p')
    ensures 'P' !in r && 'p' !in r
    ensures forall c :: c != 'P' && c != 'p' ==> (c in r <==> c in s)
  {
    ReplaceCharDeletes(s, 'P');
    ReplaceCharDeletes(Without(s, 'P'), 'p');
    Replace(Replace(s, "P", ""), "p", "")
  }

  /** An id that already has no `P`/`p` is kept as it is. */
  lemma DropPKeeps(s: string)
    requires 'P' !in s && 'p' !in s
    ensures DropP(s) == s
  {
    ReplaceCharDeletes(s, 'P');
    WithoutAbsent(s, 'P');
    ReplaceCharDeletes(s, 'p');
    WithoutAbsent(s, 'p');
  }

  /** Deleting the letters works piece by piece: `DropP` distributes over concatenation. */
  lemma DropPAppend(a: string, b: string)
    ensures DropP(a + b) == DropP(a) + DropP(b)
  {
    WithoutAppend(a, b, 'P');
    WithoutAppend(Without(a, 'P'), Without(b, 'P'), 'p');
  }

  /** The id of property `P` + digits is the digits: `DropP("P123") == "123"`. */
  lemma DropPNumber(n: string)
    requires 'P' !in n && 'p' !in n
    ensures DropP("P" + n) == n && DropP("p" + n) == n
  {
    DropPAppend("P", n);
    DropPAppend("p", n);
    DropPKeeps(n);
    DropPLetter();
  }

  lemma DropPLetter()
    ensures DropP("P") == "" && DropP("p") == ""
  {
    assert Without("P", 'P') == "";
    assert Without("p", 'P') == "p";
    assert Without("p", 'p') == "";
  }

  function NoticeEntry(prop: string): string
  {
    EntryOpen + DropP(prop) + "}} "
  }

  function NoticeBody(props: seq<string>): string
    decreases |props|
  {
    if props == [] then "" else NoticeEntry(props[0]) + NoticeBody(props[1..])
  }

  /** The text `rebuild_watchnotice(props)` returns. */
  function Watchnotice(props: seq<string>): (r: string)
    ensures |r| >= |NoticeHead| + |NoticeTail|
    ensures r[..|NoticeHead|] == NoticeHead && r[|r| - |NoticeTail|..] == NoticeTail
  {
    var r := NoticeHead + NoticeBody(props) + NoticeTail;
    assert r[..|NoticeHead|] == NoticeHead;
    assert r[|r| - |NoticeTail|..] == NoticeTail;
    r
  }

  lemma {:induction false} NoticeBodyAppend(props: seq<string>, p: string)
    ensures NoticeBody(props + [p]) == NoticeBody(props) + NoticeEntry(p)
    decreases |props|
  {
    if props == [] {
      assert [p][1..] == [];
    } else {
      assert (props + [p])[1..] == props[1..] + [p];
      NoticeBodyAppend(props[1..], p);
    }
  }

  /** `rebuild_watchnotice`: the loop that accumulates the notice text entry by entry. */
  method RebuildWatchnotice(props: seq<string>) returns (text: string)
    ensures text == Watchnotice(props)
  {
    text := NoticeHead;
    ghost var body := "";
    for i := 0 to |props|
      invariant body == NoticeBody(props[..i]) && text == NoticeHead + body
    {
      var entry := "{{PropertyRFD|" + DropP(props[i]) + "}} ";
      assert entry == NoticeEntry(props[i]);
      AppendAssoc(NoticeHead, body, entry);
      NoticeBodyAppend(props[..i], props[i]);
      assert props[..i + 1] == props[..i] + [props[i]];
      text := text + entry;
      body := body + entry;
    }
    assert props[..|props|] == props;
    text := text + NoticeTail;
  }

  lemma AppendAssoc(a: string, b: string, c: string)
    ensures a + b + c == a + (b + c)
  {
  }

  /** `pfd_line.split('}}')[0]`: the text of a piece up to its first `}}`. */
  function PieceId(piece: string): string
  {
    Split(piece, EntryClose)[0]
  }

  /** `[p.split('}}')[0] for p in pieces]`. */
  function PieceIds(pieces: seq<string>): (r: seq<string>)
    ensures |r| == |pieces| && forall k :: 0 <= k < |pieces| ==> r[k] == PieceId(pieces[k])
  {
    seq(|pieces|, k requires 0 <= k < |pieces| => PieceId(pieces[k]))
  }

  /** The loop of lines 46-49 as a fold over the pieces' ids: an id is appended when it is
      shorter than five characters and not yet in the list. The list found so far is a
      prefix of the result, and the ids added after it are new, short, and come in the order
      of their first occurrence among the pieces. */
  function CollectIds(acc: seq<string>, ids: seq<string>): (r: seq<string>)
    ensures |acc| <= |r| && r[..|acc|] == acc
    ensures NoDup(acc) ==> NoDup(r)
    ensures forall x :: x in r <==> (x in acc || (|x| < 5 && x in ids))
    ensures forall i :: |acc| <= i < |r| ==> r[i] !in acc && |r[i]| < 5
    ensures InFirstOccurrenceOrder(r, ids, |acc|)
    decreases |ids|
  {
    if ids == [] then acc
    else
      var id := ids[0];
      var acc' := if id !in acc && |id| < 5 then acc + [id] else acc;
      var r := CollectIds(acc', ids[1..]);
      CollectIdsStep(acc, ids, acc', r);
      CollectIdsOrderStep(acc, ids, acc', r);
      r
  }

  lemma CollectIdsStep(acc: seq<string>, ids: seq<string>, acc': seq<string>, r: seq<string>)
    requires ids != [] && acc' == if ids[0] !in acc && |ids[0]| < 5 then acc + [ids[0]] else acc
    requires |acc'| <= |r| && r[..|acc'|] == acc'
    requires NoDup(acc') ==> NoDup(r)
    requires forall x :: x in r <==> (x in acc' || (|x| < 5 && x in ids[1..]))
    ensures |acc| <= |r| && r[..|acc|] == acc
    ensures NoDup(acc) ==> NoDup(r)
    ensures forall x :: x in r <==> (x in acc || (|x| < 5 && x in ids))
  {
    assert ids == [ids[0]] + ids[1..];
    assert r[..|acc|] == r[..|acc'|][..|acc|];
    if NoDup(acc) && acc' != acc {
      forall i, j | 0 <= i < j < |acc'| ensures acc'[i] != acc'[j] {
        if j == |acc| {
          assert acc'[i] == acc[i];
        }
      }
    }
  }

  /** The ids added past `acc'` are not the first id, so their first occurrences lie in the
      rest of the list, one position further on. */
  lemma CollectIdsOrderStep(acc: seq<string>, ids: seq<string>, acc': seq<string>, r: seq<string>)
    requires ids != [] && acc' == if ids[0] !in acc && |ids[0]| < 5 then acc + [ids[0]] else acc
    requires |acc'| <= |r| && r[..|acc'|] == acc'
    requires forall i :: |acc'| <= i < |r| ==> r[i] !in acc' && |r[i]| < 5
    requires InFirstOccurrenceOrder(r, ids[1..], |acc'|)
    ensures forall i :: |acc| <= i < |r| ==> r[i] !in acc && |r[i]| < 5
    ensures InFirstOccurrenceOrder(r, ids, |acc|)
  {
    var tail := ids[1..];
    assert ids == [ids[0]] + tail;
    forall i | |acc'| <= i < |r|
      ensures r[i] != ids[0] && r[i] in ids && FirstIndex(ids, r[i]) == 1 + FirstIndex(tail, r[i])
    {
      FirstIndexTail(ids, r[i]);
    }
    if acc' != acc {
      assert r[|acc|] == acc'[|acc|] == ids[0];
      assert FirstIndex(ids, ids[0]) == 0;
      // The new position |acc| holds ids[0], which is short and not in acc; the positions
      // after it are covered by the facts about acc'.
      forall i | |acc| <= i < |r| ensures r[i] !in acc && |r[i]| < 5 {
      }
    }
  }

  /** Past the head of a list, an element other than the head first occurs one later than
      in the tail. */
  lemma FirstIndexTail(ids: seq<string>, x: string)
    requires ids != [] && x != ids[0] && x in ids[1..]
    ensures x in ids && FirstIndex(ids, x) == 1 + FirstIndex(ids[1..], x)
  {
    assert ids == [ids[0]] + ids[1..];
  }

  /** The ids the notice text lists, as lines 44-49 decode them. */
  function NoticeIds(text: string): seq<string>
  {
    CollectIds([], PieceIds(Split(text, EntryOpen)))
  }

  /** Lines 44-49: split the notice text on `{{PropertyRFD|` and collect the ids. The result
      holds no duplicates, only ids shorter than five characters, every such id that some
      piece starts with, and in the order in which the pieces first give them. */
  method ReadNoticeIds(text: string) returns (ids: seq<string>)
    ensures ids == NoticeIds(text)
    ensures NoDup(ids)
    ensures forall x :: x in ids <==> (|x| < 5 && x in PieceIds(Split(text, EntryOpen)))
    ensures InFirstOccurrenceOrder(ids, PieceIds(Split(text, EntryOpen)), 0)
  {
    var split := Split(text, EntryOpen);
    ghost var all := PieceIds(split);
    ids := [];
    for i := 0 to |split|
      invariant CollectIds(ids, all[i..]) == NoticeIds(text)
    {
      var prop := PieceId(split[i]);
      SuffixCons(all, i);
      assert all[i] == prop;
      if prop !in ids && |prop| < 5 {
        ids := ids + [prop];
      }
    }
    assert all[|split|..] == [];
    NoticeIdsFacts(text);
  }

  lemma NoticeIdsFacts(text: string)
    ensures NoDup(NoticeIds(text))
    ensures forall x :: x in NoticeIds(text) <==> (|x| < 5 && x in PieceIds(Split(text, EntryOpen)))
    ensures InFirstOccurrenceOrder(NoticeIds(text), PieceIds(Split(text, EntryOpen)), 0)
  {
    assert NoDup<string>([]);
  }

  /** Ids that survive a write and a read of the notice: short, no braces, no `P`/`p`. */
  predicate WellFormedId(p: string)
  {
    |p| < 5 && '{' !in p && '}' !in p && 'P' !in p && 'p' !in p
  }

  /** The pieces that splitting `pre + NoticeBody(props) + NoticeTail` on `{{PropertyRFD|` gives. */
  function NoticePieces(pre: string, props: seq<string>): seq<string>
    decreases |props|
  {
    if props == [] then [pre + NoticeTail]
    else [pre] + NoticePieces(props[0] + "}} ", props[1..])
  }

  lemma {:induction false} NoticeSplit(pre: string, props: seq<string>)
    requires '{' !in pre
    requires forall p :: p in props ==> '{' !in p && 'P' !in p && 'p' !in p
    ensures Split(pre + NoticeBody(props) + NoticeTail, EntryOpen) == NoticePieces(pre, props)
    decreases |props|
  {
    if props == [] {
      FixedPartsChars();
      EmptyMiddle(pre, NoticeBody(props), NoticeTail);
      NoBraceWhole(pre + NoticeTail);
    } else {
      var p := props[0];
      DropPKeeps(p);
      var pre' := p + "}} ";
      NoticeBodyCons(pre, props);
      NoticeSplitFirst(pre, pre' + NoticeBody(props[1..]) + NoticeTail);
      assert '{' !in pre';
      NoticeSplit(pre', props[1..]);
    }
  }

  lemma NoticeBodyCons(pre: string, props: seq<string>)
    requires props != [] && 'P' !in props[0] && 'p' !in props[0]
    ensures pre + NoticeBody(props) + NoticeTail
            == pre + EntryOpen + (props[0] + "}} " + NoticeBody(props[1..]) + NoticeTail)
  {
    DropPKeeps(props[0]);
    Regroup(pre, EntryOpen, props[0], "}} ", NoticeBody(props[1..]), NoticeTail);
  }

  lemma EmptyMiddle(a: string, b: string, c: string)
    requires b == []
    ensures a + b + c == a + c
  {
  }

  lemma Regroup(a: string, b: string, c: string, d: string, e: string, f: string)
    ensures a + (b + c + d + e) + f == a + b + (c + d + e + f)
  {
  }

  /** A text with no `{` splits on `{{PropertyRFD|` into itself alone. */
  lemma NoBraceWhole(s: string)
    requires '{' !in s
    ensures Split(s, EntryOpen) == [s]
  {
    MissingCharNoOccurrence(s, EntryOpen, 0);
    SplitNone(s, EntryOpen);
  }

  /** Splitting `pre + "{{PropertyRFD|" + post` cuts at the marker when `pre` has no `{`. */
  lemma NoticeSplitFirst(pre: string, post: string)
    requires '{' !in pre
    ensures Split(pre + EntryOpen + post, EntryOpen) == [pre] + Split(post, EntryOpen)
  {
    var s := pre + EntryOpen + post;
    assert forall i :: 0 <= i < |pre| ==> s[i] == pre[i];
    FirstCharBlocks(s, EntryOpen, |pre|);
    SplitFirst(pre, EntryOpen, post);
  }

  /** The id of a piece `q + "}} " + rest` is `q` when `q` has no `}`. */
  lemma PieceIdOf(q: string, rest: string)
    requires '}' !in q
    ensures PieceId(q + "}} " + rest) == q
  {
    var s := q + "}}" + (" " + rest);
    assert q + "}} " + rest == s;
    assert forall i :: 0 <= i < |q| ==> s[i] == q[i];
    FirstCharBlocks(s, EntryClose, |q|);
    SplitFirst(q, EntryClose, " " + rest);
  }

  /** A piece with no `}` is its own id. */
  lemma PieceIdWhole(s: string)
    requires '}' !in s
    ensures PieceId(s) == s
  {
    MissingCharNoOccurrence(s, EntryClose, 0);
    SplitNone(s, EntryClose);
  }

  /** Reading the pieces of the entries for `props` (after the head) on top of `acc`
      appends `props` in order. */
  lemma {:induction false} CollectNoticePieces(acc: seq<string>, props: seq<string>)
    requires props != []
    requires forall p :: p in props ==> WellFormedId(p)
    requires NoDup(acc + props)
    ensures CollectIds(acc, PieceIds(NoticePieces(props[0] + "}} ", props[1..]))) == acc + props
    decreases |props|
  {
    var q := props[0];
    NoDupNext(acc, props);
    if |props| == 1 {
      CollectLastPiece(acc, q);
      assert acc + [q] == acc + props;
    } else {
      var rest := props[1..];
      assert rest[0] == props[1] && rest[1..] == props[2..];
      var more := NoticePieces(rest[0] + "}} ", rest[1..]);
      assert NoticePieces(q + "}} ", rest) == [q + "}} "] + more;
      CollectPieceStep(acc, q, more);
      assert forall p :: p in props[1..] ==> p in props;
      CollectNoticePieces(acc + [q], props[1..]);
    }
  }

  /** The next id is new, and moving it onto the accumulator keeps the whole list. */
  lemma NoDupNext(acc: seq<string>, props: seq<string>)
    requires props != [] && NoDup(acc + props)
    ensures props[0] !in acc && acc + [props[0]] + props[1..] == acc + props
  {
    var all := acc + props;
    assert all[|acc|] == props[0];
    forall k | 0 <= k < |acc| ensures acc[k] != props[0] {
      assert acc[k] == all[k];
    }
    assert props == [props[0]] + props[1..];
  }

  lemma CollectPieceStep(acc: seq<string>, q: string, more: seq<string>)
    requires WellFormedId(q) && q !in acc
    ensures CollectIds(acc, PieceIds([q + "}} "] + more)) == CollectIds(acc + [q], PieceIds(more))
  {
    PieceIdOf(q, "");
    assert q + "}} " + "" == q + "}} ";
    var ids := PieceIds([q + "}} "] + more);
    assert ids[0] == q && ids[1..] == PieceIds(more);
  }

  lemma CollectLastPiece(acc: seq<string>, q: string)
    requires WellFormedId(q) && q !in acc
    ensures CollectIds(acc, PieceIds(NoticePieces(q + "}} ", []))) == acc + [q]
  {
    PieceIdOf(q, NoticeTail);
    var ids := PieceIds(NoticePieces(q + "}} ", []));
    assert ids == [q];
    assert CollectIds(acc, ids) == CollectIds(acc + [q], []);
  }

  lemma FixedPartsChars()
    ensures '{' !in NoticeHead && '}' !in NoticeHead && |NoticeHead| >= 5
    ensures '{' !in NoticeTail && '}' !in NoticeTail && |NoticeTail| >= 5
  {
    BraceFree("<ul class='hlist'");
    BraceFree(" style='display: ");
    BraceFree("inline; margin: ");
    BraceFree("0;'><onlyinclude>");
    BraceFree(NoticeTail);
  }

  lemma BraceFree(s: string)
    requires forall i :: 0 <= i < |s| ==> s[i] != '{' && s[i] != '}'
    ensures '{' !in s && '}' !in s
  {
  }

  /** Splitting a rebuilt notice on `{{PropertyRFD|` gives the header and one piece per id. */
  lemma WatchnoticePieces(props: seq<string>)
    requires forall p :: p in props ==> '{' !in p && 'P' !in p && 'p' !in p
    ensures Split(Watchnotice(props), EntryOpen) == NoticePieces(NoticeHead, props)
  {
    FixedPartsChars();
    NoticeSplit(NoticeHead, props);
  }

  lemma CollectWatchnoticePieces(head: string, props: seq<string>)
    requires '}' !in head && |head| >= 5
    requires NoDup(props)
    requires forall p :: p in props ==> WellFormedId(p)
    ensures CollectIds([], PieceIds(NoticePieces(head, props))) == props
  {
    if props == [] {
      FixedPartsChars();
      assert NoticePieces(head, props) == [head + NoticeTail];
      CollectTailOnly(head + NoticeTail);
    } else {
      CollectNoticeCons(head, props);
    }
  }

  lemma CollectNoticeCons(head: string, props: seq<string>)
    requires '}' !in head && |head| >= 5 && props != []
    requires NoDup(props)
    requires forall p :: p in props ==> WellFormedId(p)
    ensures CollectIds([], PieceIds(NoticePieces(head, props))) == props
  {
    CollectAfterHead(head, props);
    CollectEntries(props);
  }

  lemma CollectAfterHead(head: string, props: seq<string>)
    requires '}' !in head && |head| >= 5 && props != []
    ensures CollectIds([], PieceIds(NoticePieces(head, props)))
            == CollectIds([], PieceIds(NoticePieces(props[0] + "}} ", props[1..])))
  {
    var more := NoticePieces(props[0] + "}} ", props[1..]);
    assert NoticePieces(head, props) == [head] + more;
    CollectSkipsHead(head, more);
  }

  lemma CollectEntries(props: seq<string>)
    requires props != [] && NoDup(props)
    requires forall p :: p in props ==> WellFormedId(p)
    ensures CollectIds([], PieceIds(NoticePieces(props[0] + "}} ", props[1..]))) == props
  {
    assert [] + props == props;
    CollectNoticePieces([], props);
  }

  /** The last piece alone, of five or more characters, gives no id. */
  lemma CollectTailOnly(last: string)
    requires '}' !in last && |last| >= 5
    ensures CollectIds([], PieceIds([last])) == []
  {
    PieceIdWhole(last);
    assert PieceIds([last]) == [last];
  }

  /** A head piece of five or more characters contributes no id. */
  lemma CollectSkipsHead(head: string, more: seq<string>)
    requires '}' !in head && |head| >= 5
    ensures CollectIds([], PieceIds([head] + more)) == CollectIds([], PieceIds(more))
  {
    PieceIdWhole(head);
    var ids := PieceIds([head] + more);
    assert ids[0] == head && ids[1..] == PieceIds(more);
  }

  /** Reading back a notice that `rebuild_watchnotice` wrote gives the same ids in the same
      order, so regenerating the notice from an unchanged list changes nothing. */
  lemma NoticeRoundTrip(props: seq<string>)
    requires NoDup(props)
    requires forall p :: p in props ==> WellFormedId(p)
    ensures NoticeIds(Watchnotice(props)) == props
    ensures Watchnotice(NoticeIds(Watchnotice(props))) == Watchnotice(props)
  {
    WatchnoticePieces(props);
    FixedPartsChars();
    CollectWatchnoticePieces(NoticeHead, props);
  }

  /** An id of five or more characters written to the notice is not read back
      (`len(prop) < 5`): a notice listing only such an id reads back as empty. */
  lemma LongIdNotReadBack(x: string)
    requires |x| >= 5 && '{' !in x && '}' !in x && 'P' !in x && 'p' !in x
    ensures NoticeIds(Watchnotice([x])) == []
  {
    WatchnoticePieces([x]);
    FixedPartsChars();
    LongIdPieces(NoticeHead, x);
  }

  lemma LongIdPieces(head: string, x: string)
    requires '}' !in head && |head| >= 5
    requires |x| >= 5 && '}' !in x
    ensures CollectIds([], PieceIds(NoticePieces(head, [x]))) == []
  {
    LongIdPieceIds(head, x);
    CollectLong(head, x);
  }

  lemma LongIdPieceIds(head: string, x: string)
    requires '}' !in head && '}' !in x
    ensures PieceIds(NoticePieces(head, [x])) == [head, x]
  {
    var last := x + "}} " + NoticeTail;
    assert [x][0] == x && [x][1..] == [];
    assert NoticePieces(x + "}} ", []) == [last];
    var pieces := NoticePieces(head, [x]);
    assert pieces == [head, last];
    PieceIdWhole(head);
    PieceIdOf(x, NoticeTail);
  }

  lemma CollectLong(a: string, b: string)
    requires |a| >= 5 && |b| >= 5
    ensures CollectIds([], [a, b]) == []
  {
    var ids := [a, b];
    var tail := ids[1..];
    assert tail[0] == b && tail[1..] == [];
    assert CollectIds([], tail[1..]) == [];
    assert CollectIds([], tail) == CollectIds([], tail[1..]);
    assert CollectIds([], ids) == CollectIds([], tail);
  }

  // ---------------------------------------------------------------------------
  // Listing lines and discussion pages

  const ListingPage := "Wikidata:Properties for deletion"
  const Closing := "{{discussion bottom}}"

  /** Line 54 (as its evident conjunction): the line names a PfD subpage and is not a
      header, a template line or a comment. */
  predicate IsRequestLine(line: string)
  {
    Contains(line, ListingPage) && !Contains(line, "Header") && !Contains(line, "text/")
    && !Contains(line, "text2/") && !Contains(line, "<!--")
  }

  lemma ContainsLength(s: string, sub: string)
    requires Contains(s, sub)
    ensures |sub| <= |s|
  {
  }

  /** Line 55: the trimmed line with `{{` and `}}` removed. */
  function PageTitle(line: string): string
  {
    Replace(Replace(Strip(line), "{{", ""), "}}", "")
  }

  /** Line 57: the second `/`-separated segment of the page title without `P`/`p`; `None`
      when the title has no `/` (the `IndexError` that ends the run). */
  function RequestPid(line: string): (r: Option<string>)
    ensures r.None? <==> '/' !in PageTitle(line)
    ensures r.Some? ==> 'P' !in r.value && 'p' !in r.value
  {
    var parts := Split(PageTitle(line), "/");
    SplitCount(PageTitle(line), "/");
    ContainsChar(PageTitle(line), '/');
    if |parts| < 2 then None else Some(DropP(parts[1]))
  }

  /** The second piece of a split on `/` is the text between the first and second `/`. */
  lemma SecondSegment(t: string, pre: string, seg: string, post: string)
    requires t == pre + "/" + seg + post
    requires '/' !in pre && '/' !in seg && (post == "" || post[0] == '/')
    ensures |Split(t, "/")| >= 2 && Split(t, "/")[1] == seg
  {
    var rest := seg + post;
    assert t == pre + "/" + rest;
    assert forall i :: 0 <= i < |pre| ==> t[i] == pre[i];
    FirstCharBlocks(t, "/", |pre|);
    SplitFirst(pre, "/", rest);
    if post == "" {
      assert rest == seg;
      MissingCharNoOccurrence(seg, "/", 0);
      SplitNone(seg, "/");
    } else {
      assert rest == seg + "/" + post[1..];
      assert forall i :: 0 <= i < |seg| ==> rest[i] == seg[i];
      FirstCharBlocks(rest, "/", |seg|);
      SplitFirst(seg, "/", post[1..]);
    }
  }

  /** The pid is the segment between the first and the second `/` of the page title. */
  lemma RequestPidSegment(line: string, pre: string, seg: string, post: string)
    requires PageTitle(line) == pre + "/" + seg + post
    requires '/' !in pre && '/' !in seg && (post == "" || post[0] == '/')
    ensures RequestPid(line) == Some(DropP(seg))
  {
    SecondSegment(PageTitle(line), pre, seg, post);
  }

  predicate ClosingLine(line: string)
  {
    Contains(Lower(line), Closing)
  }

  /** Line 62: the discussion is closed when `{{discussion bottom}}` occurs in the
      lower-cased last, second-last or third-last line, tried in that order; `None` is the
      `IndexError` a page with fewer than three lines and no earlier match raises. */
  function IsClosed(text: string): (r: Option<bool>)
    ensures var lines := SplitLines(text);
      r == Some(true) <==>
        exists j :: 0 <= j < |lines| && |lines| - 3 <= j && ClosingLine(lines[j])
    ensures var lines := SplitLines(text);
      r.None? <==> |lines| < 3 && forall j :: 0 <= j < |lines| ==> !ClosingLine(lines[j])
  {
    ClosedIn(SplitLines(text))
  }

  /** The check of line 62 on the lines of a page. */
  function ClosedIn(lines: seq<string>): (r: Option<bool>)
    ensures r == Some(true) <==> exists j :: 0 <= j < |lines| && |lines| - 3 <= j && ClosingLine(lines[j])
    ensures r.None? <==> |lines| < 3 && forall j :: 0 <= j < |lines| ==> !ClosingLine(lines[j])
  {
    var n := |lines|;
    if n < 1 then None
    else if ClosingLine(lines[n - 1]) then Some(true)
    else if n < 2 then None
    else if ClosingLine(lines[n - 2]) then Some(true)
    else if n < 3 then None
    else Some(ClosingLine(lines[n - 3]))
  }

  // ---------------------------------------------------------------------------
  // The run

  /** One save of a wiki page: its title, the new text and the edit summary. */
  datatype PageSave = PageSave(page: string, text: string, summary: string)

  /** The variables the loop of lines 53-78 updates: `newpage`, `newarchivepage`,
      `pfd_on_notice`, and the watchlist saves made so far. */
  datatype RunState = RunState(listing: string, archive: string, onNotice: seq<string>,
                               noticeSaves: seq<PageSave>)

  /** The loop either goes on or ends with an uncaught `IndexError` in state `st`. */
  datatype Progress = Running(st: RunState) | Crashed(st: RunState)

  function RemovedSummary(pid: string): string
  {
    "- [[Property:P" + pid + "]] ([[Wikidata:Properties_for_deletion/P" + pid + "|discussion]]"
  }

  function AddedSummary(pid: string): string
  {
    "+ [[Property:P" + pid + "]] ([[Wikidata:Properties_for_deletion/P" + pid + "|discussion]]"
  }

  /** One iteration of lines 53-78; `discussion` gives the text of a page by title. */
  function Step(st: RunState, line: string, discussion: string -> string): Progress
  {
    if !IsRequestLine(line) then Running(st)
    else match RequestPid(line)
      case None => Crashed(st)
      case Some(pid) =>
        match IsClosed(discussion(PageTitle(line)))
        case None => Crashed(st)
        case Some(true) =>
          ContainsLength(line, ListingPage);
          Running(CloseRequest(st, line, pid))
        case Some(false) => Running(OpenRequest(st, pid))
  }

  /** Lines 63-71: a closed discussion. */
  function CloseRequest(st: RunState, line: string, pid: string): RunState
    requires |line| > 0
  {
    var listing := Replace(st.listing, line, "");
    var archive := st.archive + "\n" + line;
    if pid in st.onNotice then
      var ids := RemoveFirst(st.onNotice, pid);
      RunState(listing, archive, ids,
        st.noticeSaves + [PageSave(NoticePage, Watchnotice(ids), RemovedSummary(pid))])
    else RunState(listing, archive, st.onNotice, st.noticeSaves)
  }

  /** Lines 72-78: an open discussion. */
  function OpenRequest(st: RunState, pid: string): RunState
  {
    if pid !in st.onNotice then
      var ids := st.onNotice + [pid];
      st.(onNotice := ids,
        noticeSaves := st.noticeSaves + [PageSave(NoticePage, Watchnotice(ids), AddedSummary(pid))])
    else st
  }

  /** The notice is saved exactly when the tracked list changed, and then with its text. */
  predicate SavedOnChange(st: RunState, s: RunState)
  {
    if s.onNotice == st.onNotice then s.noticeSaves == st.noticeSaves
    else |s.noticeSaves| == |st.noticeSaves| + 1 && s.noticeSaves[..|st.noticeSaves|] == st.noticeSaves
         && s.noticeSaves[|st.noticeSaves|].page == NoticePage
         && s.noticeSaves[|st.noticeSaves|].text == Watchnotice(s.onNotice)
  }

  lemma CloseRequestEffect(st: RunState, line: string, pid: string)
    requires |line| > 0 && NoDup(st.onNotice)
    ensures RequestOutcome(st, CloseRequest(st, line, pid), line, pid, true)
  {
    ReplaceIsJoinSplit(st.listing, line, "");
    if pid in st.onNotice {
      RemoveFirstNoDup(st.onNotice, pid);
    }
  }

  lemma OpenRequestEffect(st: RunState, line: string, pid: string)
    requires NoDup(st.onNotice)
    ensures RequestOutcome(st, OpenRequest(st, pid), line, pid, false)
  {
    if pid !in st.onNotice {
      var ids := st.onNotice + [pid];
      forall i, j | 0 <= i < j < |ids| ensures ids[i] != ids[j] {
        if j == |ids| - 1 {
          assert ids[i] in st.onNotice;
        }
      }
    }
  }

  function Fold(st: RunState, lines: seq<string>, discussion: string -> string): Progress
    decreases |lines|
  {
    if lines == [] then Running(st)
    else match Step(st, lines[0], discussion)
      case Crashed(s) => Crashed(s)
      case Running(s) => Fold(s, lines[1..], discussion)
  }

  /** What a request line does to the state: a closed discussion moves the line to the
      archive, removes every occurrence of it from the listing and drops its id from the
      notice; an open one puts its id on the notice. The notice is saved exactly when its
      list changed, and then with the text for the new list. */
  lemma StepEffect(st: RunState, line: string, discussion: string -> string)
    requires IsRequestLine(line) && NoDup(st.onNotice)
    requires Step(st, line, discussion).Running?
    ensures RequestPid(line).Some? && IsClosed(discussion(PageTitle(line))).Some? && |line| > 0
    ensures RequestOutcome(st, Step(st, line, discussion).st, line, RequestPid(line).value,
                           IsClosed(discussion(PageTitle(line))).value)
  {
    StepRequest(st, line, discussion);
    RequestEffect(st, Step(st, line, discussion).st, line, RequestPid(line).value,
                  IsClosed(discussion(PageTitle(line))).value);
  }

  /** A request line that does not end the run closes or opens its request. */
  lemma StepRequest(st: RunState, line: string, discussion: string -> string)
    requires IsRequestLine(line) && Step(st, line, discussion).Running?
    ensures RequestPid(line).Some? && IsClosed(discussion(PageTitle(line))).Some? && |line| > 0
    ensures var pid := RequestPid(line).value;
      Step(st, line, discussion).st ==
        if IsClosed(discussion(PageTitle(line))).value then CloseRequest(st, line, pid) else OpenRequest(st, pid)
  {
    ContainsLength(line, ListingPage);
  }

  /** What handling request `pid` on `line` did to the state, `closed` or not: closed, the
      archive gains the line, the listing loses every occurrence of it, and `pid` is cut out
      of the list where it stood (the list is untouched when `pid` was not on it); open, `pid`
      goes to the end of the list unless it is already there, and nothing else changes. The
      list stays duplicate-free and the notice is saved exactly when the list changed. */
  ghost predicate RequestOutcome(st: RunState, s: RunState, line: string, pid: string, closed: bool)
  {
    && NoDup(s.onNotice)
    && (closed ==>
          && |line| > 0
          && s.archive == st.archive + "\n" + line
          && s.listing == Join(Split(st.listing, line), "")
          && (forall x :: x in s.onNotice <==> x in st.onNotice && x != pid)
          && (pid !in st.onNotice ==> s.onNotice == st.onNotice)
          && (pid in st.onNotice ==>
                var k := FirstIndex(st.onNotice, pid);
                s.onNotice == st.onNotice[..k] + st.onNotice[k + 1..]))
    && (!closed ==>
          && s.listing == st.listing && s.archive == st.archive
          && s.onNotice == (if pid in st.onNotice then st.onNotice else st.onNotice + [pid]))
    && SavedOnChange(st, s)
    && (s.onNotice != st.onNotice ==>
          s.noticeSaves[|st.noticeSaves|].summary
          == if closed then RemovedSummary(pid) else AddedSummary(pid))
  }

  lemma RequestEffect(st: RunState, s: RunState, line: string, pid: string, closed: bool)
    requires |line| > 0 && NoDup(st.onNotice)
    requires s == if closed then CloseRequest(st, line, pid) else OpenRequest(st, pid)
    ensures RequestOutcome(st, s, line, pid, closed)
  {
    if closed {
      CloseRequestEffect(st, line, pid);
    } else {
      OpenRequestEffect(st, line, pid);
    }
  }
  /** The tracked list has no repeats, and the last saved notice (if any) is its text. */
  predicate NoticeInSync(st: RunState)
  {
    && NoDup(st.onNotice)
    && (st.noticeSaves != [] ==> st.noticeSaves[|st.noticeSaves| - 1].text == Watchnotice(st.onNotice))
  }

  /** The saves made up to `st` are still the first saves in `s`. */
  predicate SavesKept(st: RunState, s: RunState)
  {
    |st.noticeSaves| <= |s.noticeSaves| && s.noticeSaves[..|st.noticeSaves|] == st.noticeSaves
  }

  /** One iteration that goes on keeps the notice in step with the tracked list and keeps
      the saves made so far. */
  lemma StepKeepsNotice(st: RunState, line: string, discussion: string -> string)
    requires NoticeInSync(st) && Step(st, line, discussion).Running?
    ensures var s := Step(st, line, discussion).st;
      NoticeInSync(s) && SavesKept(st, s)
  {
    if IsRequestLine(line) {
      var s := Step(st, line, discussion).st;
      assert NoDup(s.onNotice) && SavedOnChange(st, s) by {
        StepEffect(st, line, discussion);
      }
    } else {
      assert Step(st, line, discussion) == Running(st);
    }
  }

  /** Over a whole run the tracked list stays duplicate-free, the last saved notice (if any)
      is the notice text of the list at that point, and no earlier save is lost. */
  lemma {:induction false} FoldKeepsNotice(st: RunState, lines: seq<string>, discussion: string -> string)
    requires NoticeInSync(st)
    ensures var s := Fold(st, lines, discussion).st;
      NoticeInSync(s) && SavesKept(st, s)
    decreases |lines|
  {
    if lines != [] {
      var p := Step(st, lines[0], discussion);
      if p.Running? {
        StepKeepsNotice(st, lines[0], discussion);
        FoldKeepsNotice(p.st, lines[1..], discussion);
        var s := Fold(st, lines, discussion).st;
        assert s.noticeSaves[..|p.st.noticeSaves|][..|st.noticeSaves|] == s.noticeSaves[..|st.noticeSaves|];
      }
    }
  }

  /** Line 54 excludes header, template and comment lines whatever else they contain. */
  lemma NonRequestLineIgnored(st: RunState, line: string, discussion: string -> string)
    requires Contains(line, "Header") || Contains(line, "<!--")
    ensures Step(st, line, discussion) == Running(st)
  {
  }

  // ---------------------------------------------------------------------------
  // Listing split, tidy-up, archive name

  /** The comment that separates the active requests from those on hold. */
  const HoldMarker := "<!-- Below are r" + "equest currently" + " on hold, means " + "consensus has be"
                      + "en reached and t" + "hey are waiting " + "for deletion -->"

  /** Lines 38-39 as written: the second half is taken from a split on the literal text
      `split_text`, so a listing without that word raises `IndexError` (`None`). */
  function ListingPartsAsWritten(text: string): (r: Option<(string, string)>)
    ensures r.None? <==> !Contains(text, "split_text")
  {
    var p2 := Split(text, "split_text");
    SplitCount(text, "split_text");
    if |p2| < 2 then None else Some((Split(text, HoldMarker)[0], HoldMarker + p2[1]))
  }

  /** Lines 38-39 as intended: both halves come from the split on the hold marker. */
  function ListingParts(text: string): (r: Option<(string, string)>)
    ensures r.None? <==> !Contains(text, HoldMarker)
  {
    var parts := Split(text, HoldMarker);
    SplitCount(text, HoldMarker);
    if |parts| < 2 then None else Some((parts[0], HoldMarker + parts[1]))
  }

  /** With the hold marker occurring exactly once, the intended split gives back the
      active part and the on-hold part, and putting them together restores the page. */
  lemma ListingPartsRoundTrip(a: string, b: string)
    requires forall i :: OccursAt(a + HoldMarker + b, HoldMarker, i) ==> i == |a|
    ensures ListingParts(a + HoldMarker + b) == Some((a, HoldMarker + b))
  {
    SplitOnce(a, HoldMarker, b);
  }

  /** The word `split_text` does not occur in a listing made of the marker alone, so the
      code as written stops at line 39 where the intended split succeeds. */
  lemma ListingPartsAsWrittenCrashes()
    ensures ListingPartsAsWritten(HoldMarker).None?
    ensures ListingParts(HoldMarker) == Some(("", HoldMarker))
  {
    MarkerLacksWord();
    MarkerAlone();
  }

  lemma MarkerLacksWord()
    ensures !Contains(HoldMarker, "split_text")
  {
    assert "split_text"[5] == '_';
    assert '_' !in "<!-- Below are r";
    assert '_' !in "equest currently";
    assert '_' !in " on hold, means ";
    assert '_' !in "consensus has be";
    assert '_' !in "en reached and t";
    assert '_' !in "hey are waiting ";
    assert '_' !in "for deletion -->";
    assert '_' !in HoldMarker;
    MissingCharNoOccurrence(HoldMarker, "split_text", 5);
  }

  lemma MarkerAlone()
    ensures Split(HoldMarker, HoldMarker) == ["", ""]
    ensures HoldMarker + "" == HoldMarker
  {
    SplitWhole(HoldMarker);
  }

  /** Lines 81-82. */
  function Tidy(listing: string): string
  {
    Replace(Replace(listing, "Properties_for_deletion", "Properties for deletion"), "\n\n\n", "\n")
  }

  /** The tidy-up leaves a listing without underscores or triple newlines as it is. */
  lemma TidyKeeps(listing: string)
    requires '_' !in listing && !Contains(listing, "\n\n\n")
    ensures Tidy(listing) == listing
  {
    MissingCharNoOccurrence(listing, "Properties_for_deletion", 10);
    ReplaceAbsent(listing, "Properties_for_deletion", "Properties for deletion");
    ReplaceAbsent(listing, "\n\n\n", "\n");
  }

  /** Line 81 does what it is for: no underscored `Properties_for_deletion` is left, and
      line 82, whose pattern and replacement are newlines only, does not bring one back. */
  lemma TidyRemovesUnderscoredName(listing: string)
    ensures !Contains(Tidy(listing), "Properties_for_deletion")
  {
    var pat, repl := "Properties_for_deletion", "Properties for deletion";
    TidyPatterns();
    ReplaceLeavesNoPat(listing, pat, repl);
    ReplaceKeepsAbsent(Replace(listing, pat, repl), "\n\n\n", "\n", pat);
  }

  /** Line 81's replacement cannot line up with its pattern: they differ at the underscore,
      and each has its `P` only in front. */
  lemma TidyPatterns()
    ensures "Properties for deletion"[..23] != "Properties_for_deletion"
    ensures 'P' !in "Properties for deletion"[1..] && 'P' !in "Properties_for_deletion"[1..]
  {
    assert "Properties for deletion"[..23][10] == ' ';
    assert "Properties for deletion"[1..] == "roperties for deletion";
    assert "Properties_for_deletion"[1..] == "roperties_for_deletion";
  }

  /** One pass of the tidy-up can leave a triple newline behind: five newlines become three. */
  lemma TidyLeavesTripleNewline()
    ensures Tidy("\n\n\n\n\n") == "\n\n\n"
  {
    assert '_' !in "\n\n\n\n\n";
    MissingCharNoOccurrence("\n\n\n\n\n", "Properties_for_deletion", 10);
    ReplaceAbsent("\n\n\n\n\n", "Properties_for_deletion", "Properties for deletion");
    assert "\n\n\n\n\n"[3..] == "\n\n";
  }

  /** Lines 28-31: the archive page for the current year. */
  function ArchivePageName(year: string): (r: string)
    ensures year == "2022" ==> r == "Wikidata:Properties for deletion/Archive/2022/4"
    ensures year != "2022" ==> |r| == 40 + |year| && r[..40] == "Wikidata:Requests for permissions/RfBot/"
                                && r[40..] == year
  {
    if year == "2022" then "Wikidata:Properties for deletion/Archive/2022/4"
    else "Wikidata:Requests for permissions/RfBot/" + year
  }

  /** The outcome of one run: the saves in the order they happen, and whether the run got
      to the end (an uncaught `IndexError` stops it before the final two saves). */
  datatype Effects = Effects(saves: seq<PageSave>, completed: bool)

  /** Which split line 39 makes: as written, on the literal word `split_text`; as intended,
      on the hold marker. */
  datatype SplitRule = SplitOnWord | SplitOnMarker

  function SplitListing(rule: SplitRule, text: string): Option<(string, string)>
  {
    match rule
    case SplitOnWord => ListingPartsAsWritten(text)
    case SplitOnMarker => ListingParts(text)
  }

  /** The whole script (lines 27-88), with line 39 read by `rule`. */
  function ArchiverRun(listingText: string, archiveText: string, noticeText: string,
                       discussion: string -> string, year: string, rule: SplitRule): Effects
  {
    match SplitListing(rule, listingText)
    case None => Effects([], false)
    case Some((head, tail)) => ActiveRun(head, tail, archiveText, noticeText, discussion, year)
  }

  /** Lines 40-88, once the listing is split into its active part `head` and its on-hold
      part `tail`. */
  function ActiveRun(head: string, tail: string, archiveText: string, noticeText: string,
                     discussion: string -> string, year: string): Effects
  {
    var st0 := RunState(head, archiveText, NoticeIds(noticeText), []);
    match Fold(st0, SplitLines(head), discussion)
    case Crashed(s) => Effects(s.noticeSaves, false)
    case Running(s) => Effects(s.noticeSaves + FinalSaves(s.archive, s.listing, tail, year), true)
  }

  /** Lines 85-88: the archive page is saved, then the listing, tidied, with its on-hold part. */
  function FinalSaves(archive: string, listing: string, tail: string, year: string): seq<PageSave>
  {
    var name := ArchivePageName(year);
    [PageSave(name, archive, "Archiving from [[Wikidata:Properties for deletion]]"),
     PageSave(ListingPage, Tidy(listing) + tail, "Archiving closed requests to [[" + name + "]]")]
  }

  /** One pass of the loop of lines 53-78 on the script's variables. */
  method ProcessLine(st: RunState, line: string, discussion: string -> string) returns (p: Progress)
    ensures p == Step(st, line, discussion)
  {
    var newPage, newArchivePage, onNotice, saves := st.listing, st.archive, st.onNotice, st.noticeSaves;
    if IsRequestLine(line) {
      var pagetitle := PageTitle(line);
      var pid := RequestPid(line);
      if pid.None? {
        return Crashed(st);
      }
      var closed := IsClosed(discussion(pagetitle));
      if closed.None? {
        return Crashed(st);
      }
      if closed.value {
        ContainsLength(line, ListingPage);
        newArchivePage := newArchivePage + "\n" + line;
        newPage := Replace(newPage, line, "");
        if pid.value in onNotice {
          onNotice := RemoveFirst(onNotice, pid.value);
          var text := RebuildWatchnotice(onNotice);
          saves := saves + [PageSave(NoticePage, text, RemovedSummary(pid.value))];
        }
      } else {
        if pid.value !in onNotice {
          onNotice := onNotice + [pid.value];
          var text := RebuildWatchnotice(onNotice);
          saves := saves + [PageSave(NoticePage, text, AddedSummary(pid.value))];
        }
      }
    }
    p := Running(RunState(newPage, newArchivePage, onNotice, saves));
  }

  /** The script body: split the listing, decode the notice, walk the active lines updating
      `newpage`, `newarchivepage` and `pfd_on_notice`, then tidy up and save. */
  method ArchiveRequests(listingText: string, archiveText: string, noticeText: string,
                         discussion: string -> string, year: string, rule: SplitRule) returns (eff: Effects)
    ensures eff == ArchiverRun(listingText, archiveText, noticeText, discussion, year, rule)
  {
    var parts := SplitListing(rule, listingText);
    if parts.None? {
      return Effects([], false);
    }
    var (newPage, newPagePart2) := parts.value;
    eff := ArchiveActive(newPage, newPagePart2, archiveText, noticeText, discussion, year);
  }

  /** The script from the notice decoding on: walk the active lines updating `newpage`,
      `newarchivepage` and `pfd_on_notice`, then tidy up and save. */
  method ArchiveActive(newPage: string, newPagePart2: string, archiveText: string, noticeText: string,
                       discussion: string -> string, year: string) returns (eff: Effects)
    ensures eff == ActiveRun(newPage, newPagePart2, archiveText, noticeText, discussion, year)
  {
    var archivePageName := ArchivePageName(year);
    var lines := SplitLines(newPage);
    var onNotice := ReadNoticeIds(noticeText);
    var st := RunState(newPage, archiveText, onNotice, []);
    ghost var st0 := st;
    var i := 0;
    while i < |lines|
      invariant 0 <= i <= |lines|
      invariant Fold(st, lines[i..], discussion) == Fold(st0, lines, discussion)
    {
      SuffixCons(lines, i);
      var p := ProcessLine(st, lines[i], discussion);
      if p.Crashed? {
        return Effects(p.st.noticeSaves, false);
      }
      st := p.st;
      i := i + 1;
    }
    assert lines[|lines|..] == [];
    eff := Effects(st.noticeSaves + [
      PageSave(archivePageName, st.archive, "Archiving from [[Wikidata:Properties for deletion]]"),
      PageSave(ListingPage, Tidy(st.listing) + newPagePart2, "Archiving closed requests to [[" + archivePageName + "]]")],
      true);
  }

  /** As written, a listing without the word `split_text` ends the run at line 39: nothing
      is saved, whatever the listing, the archive, the notice and the discussions hold. */
  lemma ArchiverRunAsWritten(listingText: string, archiveText: string, noticeText: string,
                             discussion: string -> string, year: string)
    requires !Contains(listingText, "split_text")
    ensures ArchiverRun(listingText, archiveText, noticeText, discussion, year, SplitOnWord)
            == Effects([], false)
  {
  }

  /** A listing holding the hold marker once and no `split_text`: the intended split gets
      to the end of the run and saves the archive and the listing, while the code as
      written saves nothing. */
  lemma ArchiverRunAsWrittenSavesNothing(a: string, b: string, archiveText: string, noticeText: string,
                                         discussion: string -> string, year: string)
    requires forall i :: OccursAt(a + HoldMarker + b, HoldMarker, i) ==> i == |a|
    requires !Contains(a + HoldMarker + b, "split_text")
    requires forall line :: line in SplitLines(a) ==> !Contains(line, ListingPage)
    ensures ArchiverRun(a + HoldMarker + b, archiveText, noticeText, discussion, year, SplitOnWord).saves == []
    ensures var e := ArchiverRun(a + HoldMarker + b, archiveText, noticeText, discussion, year, SplitOnMarker);
            && e.completed && |e.saves| == 2
            && e.saves[0].page == ArchivePageName(year) && e.saves[0].text == archiveText
            && e.saves[1].page == ListingPage && e.saves[1].text == Tidy(a) + (HoldMarker + b)
  {
    ArchiverRunAsWritten(a + HoldMarker + b, archiveText, noticeText, discussion, year);
    IntendedRunSplits(a, b, archiveText, noticeText, discussion, year);
    ActiveRunNoRequests(a, HoldMarker + b, archiveText, noticeText, discussion, year);
    FinalSavesPages(archiveText, a, HoldMarker + b, year);
  }

  /** With the hold marker once, the intended run goes on with the text before it as the
      active part. */
  lemma IntendedRunSplits(a: string, b: string, archiveText: string, noticeText: string,
                          discussion: string -> string, year: string)
    requires forall i :: OccursAt(a + HoldMarker + b, HoldMarker, i) ==> i == |a|
    ensures ArchiverRun(a + HoldMarker + b, archiveText, noticeText, discussion, year, SplitOnMarker)
            == ActiveRun(a, HoldMarker + b, archiveText, noticeText, discussion, year)
  {
    ListingPartsRoundTrip(a, b);
    assert SplitListing(SplitOnMarker, a + HoldMarker + b) == Some((a, HoldMarker + b));
  }

  /** The archive is saved under the year's archive name with its text; the listing under
      its own name with the tidied active part and the on-hold part. */
  lemma FinalSavesPages(archive: string, listing: string, tail: string, year: string)
    ensures var f := FinalSaves(archive, listing, tail, year);
            && |f| == 2
            && f[0].page == ArchivePageName(year) && f[0].text == archive
            && f[1].page == ListingPage && f[1].text == Tidy(listing) + tail
  {
  }

  /** An active part without request lines gets to the end of the run: the archive and the
      listing are saved, and the notice is not. */
  lemma ActiveRunNoRequests(head: string, tail: string, archiveText: string, noticeText: string,
                            discussion: string -> string, year: string)
    requires forall line :: line in SplitLines(head) ==> !Contains(line, ListingPage)
    ensures ActiveRun(head, tail, archiveText, noticeText, discussion, year).completed
    ensures ActiveRun(head, tail, archiveText, noticeText, discussion, year).saves
            == FinalSaves(archiveText, head, tail, year)
  {
    var st0 := RunState(head, archiveText, NoticeIds(noticeText), []);
    FoldNoRequests(st0, SplitLines(head), discussion);
    ActiveRunUnchanged(head, tail, archiveText, noticeText, discussion, year);
  }

  /** When the loop changes nothing, the run ends with the two final saves alone. */
  lemma ActiveRunUnchanged(head: string, tail: string, archiveText: string, noticeText: string,
                           discussion: string -> string, year: string)
    requires var st0 := RunState(head, archiveText, NoticeIds(noticeText), []);
             Fold(st0, SplitLines(head), discussion) == Running(st0)
    ensures ActiveRun(head, tail, archiveText, noticeText, discussion, year)
            == Effects(FinalSaves(archiveText, head, tail, year), true)
  {
    var st0 := RunState(head, archiveText, NoticeIds(noticeText), []);
    var finals := FinalSaves(archiveText, head, tail, year);
    assert ActiveRun(head, tail, archiveText, noticeText, discussion, year)
           == Effects(st0.noticeSaves + FinalSaves(st0.archive, st0.listing, tail, year), true);
    assert st0.noticeSaves == [];
    assert [] + finals == finals;
  }

  /** Lines that name no PfD page leave the state as it is, and the loop gets to its end. */
  lemma {:induction false} FoldNoRequests(st: RunState, lines: seq<string>, discussion: string -> string)
    requires forall line :: line in lines ==> !Contains(line, ListingPage)
    ensures Fold(st, lines, discussion) == Running(st)
    decreases |lines|
  {
    if lines != [] {
      assert lines[0] in lines;
      assert Step(st, lines[0], discussion) == Running(st);
      assert forall line :: line in lines[1..] ==> line in lines;
      FoldNoRequests(st, lines[1..], discussion);
    }
  }

  /** After a run, the last notice it saved lists exactly the ids it tracked at the end, and
      reading that notice back on the next run gives the same list when the ids are
      well formed: an unchanged list is never saved twice. */
  lemma RunNoticeConsistent(listingText: string, archiveText: string, noticeText: string,
                            discussion: string -> string)
    requires ListingParts(listingText).Some?
    ensures var st0 := RunState(ListingParts(listingText).value.0, archiveText, NoticeIds(noticeText), []);
      var s := Fold(st0, SplitLines(ListingParts(listingText).value.0), discussion).st;
      NoticeInSync(s) &&
      (s.noticeSaves != [] && (forall p :: p in s.onNotice ==> WellFormedId(p)) ==>
         NoticeIds(s.noticeSaves[|s.noticeSaves| - 1].text) == s.onNotice)
  {
    NoticeIdsFacts(noticeText);
    RunKeepsNotice(ListingParts(listingText).value.0, archiveText, NoticeIds(noticeText), discussion);
  }

  lemma RunKeepsNotice(active: string, archiveText: string, ids: seq<string>, discussion: string -> string)
    requires NoDup(ids)
    ensures var s := Fold(RunState(active, archiveText, ids, []), SplitLines(active), discussion).st;
      NoticeInSync(s) &&
      (s.noticeSaves != [] && (forall p :: p in s.onNotice ==> WellFormedId(p)) ==>
         NoticeIds(s.noticeSaves[|s.noticeSaves| - 1].text) == s.onNotice)
  {
    var st0 := RunState(active, archiveText, ids, []);
    FoldKeepsNotice(st0, SplitLines(active), discussion);
    InSyncReadsBack(Fold(st0, SplitLines(active), discussion).st);
  }

  /** A notice in step with a list of well-formed ids reads back as that list. */
  lemma InSyncReadsBack(s: RunState)
    requires NoticeInSync(s)
    ensures s.noticeSaves != [] && (forall p :: p in s.onNotice ==> WellFormedId(p)) ==>
      NoticeIds(s.noticeSaves[|s.noticeSaves| - 1].text) == s.onNotice
  {
    if s.noticeSaves != [] && (forall p :: p in s.onNotice ==> WellFormedId(p)) {
      NoticeRoundTrip(s.onNotice);
    }
  }
}
