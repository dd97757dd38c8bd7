/**
 * The inline keyboards (bot/keyboards/inline.py) as rows of buttons, each a
 * label and the callback data the chat sends back when it is pressed. The
 * human-readable size in a file button is a parameter (`sizeText`).
 */
module InlineKeyboards {
  import opened Common
  import opened Text
  import opened FileCatalog

  datatype Button = Button(text: string, callback: string)

  type Keyboard = seq<seq<Button>>

  const RefreshRow: seq<Button> := [Button("🔄 Обновить", "list:refresh")]

  /** The button of one file: its name and size, and `file:<id>`. */
  function FileButton(f: FileInfo, sizeText: nat -> string): Button
  {
    Button("📹 " + f.name + " (" + sizeText(f.size) + ")", "file:" + f.fileId)
  }

  function PrevButton(page: int): Button
  {
    Button("◀️ Назад", "page:" + IntToString(page - 1))
  }

  function NextButton(page: int): Button
  {
    Button("Далее ▶️", "page:" + IntToString(page + 1))
  }

  /** The `page+1/total` indicator, whose callback is the inert `page:current`. */
  function IndicatorButton(page: int, totalPages: int): Button
  {
    Button(IntToString(page + 1) + "/" + IntToString(totalPages), "page:current")
  }

  /** The pagination row: back when there is an earlier page, the indicator, forward when there is a later page. */
  function PaginationRow(page: int, totalPages: int): (row: seq<Button>)
    ensures 1 <= |row| <= 3
  {
    (if page > 0 then [PrevButton(page)] else [])
    + [IndicatorButton(page, totalPages)]
    + (if page < totalPages - 1 then [NextButton(page)] else [])
  }

  /** The callbacks of a row. */
  function Callbacks(row: seq<Button>): set<string>
  {
    set b | b in row :: b.callback
  }

  /** `get_file_list_keyboard`: a row per file in order, the pagination row when there is more than one page, then refresh. */
  method FileListKeyboard(files: seq<FileInfo>, page: int, totalPages: int, sizeText: nat -> string)
    returns (rows: Keyboard)
    ensures |rows| == |files| + (if totalPages > 1 then 1 else 0) + 1
    ensures forall i :: 0 <= i < |files| ==> rows[i] == [FileButton(files[i], sizeText)]
    ensures totalPages > 1 ==> rows[|files|] == PaginationRow(page, totalPages)
    ensures rows[|rows| - 1] == RefreshRow
    ensures (exists k :: 0 <= k < |rows| && "page:current" in Callbacks(rows[k])) <==> totalPages > 1
  {
    rows := [];
    for i := 0 to |files|
      invariant |rows| == i
      invariant forall k :: 0 <= k < i ==> rows[k] == [FileButton(files[k], sizeText)]
    {
      rows := rows + [[FileButton(files[i], sizeText)]];
    }
    if totalPages > 1 {
      var pagination := [];
      if page > 0 {
        pagination := pagination + [PrevButton(page)];
      }
      pagination := pagination + [IndicatorButton(page, totalPages)];
      if page < totalPages - 1 {
        pagination := pagination + [NextButton(page)];
      }
      rows := rows + [pagination];
    }
    rows := rows + [RefreshRow];
    CurrentOfferedIff(files, page, totalPages, sizeText, rows);
  }

  /** In a file-list keyboard, `page:current` is offered exactly when the pagination row is there. */
  lemma CurrentOfferedIff(files: seq<FileInfo>, page: int, totalPages: int, sizeText: nat -> string, rows: Keyboard)
    requires |rows| == |files| + (if totalPages > 1 then 1 else 0) + 1
    requires forall i :: 0 <= i < |files| ==> rows[i] == [FileButton(files[i], sizeText)]
    requires totalPages > 1 ==> rows[|files|] == PaginationRow(page, totalPages)
    requires rows[|rows| - 1] == RefreshRow
    ensures (exists k :: 0 <= k < |rows| && "page:current" in Callbacks(rows[k])) <==> totalPages > 1
  {
    if totalPages > 1 {
      IndicatorAlwaysOffered(page, totalPages);
      assert "page:current" in Callbacks(rows[|files|]);
    } else {
      forall k | 0 <= k < |rows|
        ensures "page:current" !in Callbacks(rows[k])
      {
        if k < |files| {
          FileButtonIsNoPage(files[k], sizeText);
        }
      }
    }
  }

  /** `get_file_actions_keyboard`: download, delete, back to the list, one per row. */
  function ActionsKeyboard(fileId: string): (k: Keyboard)
    ensures |k| == 3 && forall i :: 0 <= i < 3 ==> |k[i]| == 1
    ensures k[0][0].callback == "download:" + fileId
    ensures k[1][0].callback == "delete_ask:" + fileId
    ensures k[2][0].callback == "list:back"
  {
    [ [Button("⬇️ Скачать", "download:" + fileId)],
      [Button("🗑 Удалить", "delete_ask:" + fileId)],
      [Button("↩️ Назад к списку", "list:back")] ]
  }

  /** `get_delete_confirmation_keyboard`: confirm and cancel side by side; cancel goes back to the file. */
  function DeleteConfirmationKeyboard(fileId: string): (k: Keyboard)
    ensures |k| == 1 && |k[0]| == 2
    ensures k[0][0].callback == "delete_confirm:" + fileId
    ensures k[0][1].callback == "file:" + fileId
  {
    [ [Button("✅ Да, удалить", "delete_confirm:" + fileId), Button("❌ Отмена", "file:" + fileId)] ]
  }

  /** `get_empty_list_keyboard`: only the refresh row. */
  function EmptyListKeyboard(): (k: Keyboard)
    ensures k == [RefreshRow]
  {
    [RefreshRow]
  }

  // ---------------------------------------------------------------------------
  // what the pagination row offers

  lemma NoColonInIntToString(i: int)
    ensures ':' !in IntToString(i)
  {
    var d := if i < 0 then NatToString(-i) else NatToString(i);
    assert forall k :: 0 <= k < |d| ==> IsDigit(d[k]);
  }

  /** `page:current` is never the callback of a page number. */
  lemma CurrentIsNoPage(p: int)
    ensures "page:" + IntToString(p) != "page:current"
  {
    var s := IntToString(p);
    var d := if p < 0 then NatToString(-p) else NatToString(p);
    assert IsDigit(d[0]);
    assert s[0] == '-' || s[0] == d[0];
    assert ("page:" + s)[5] == s[0];
    assert "page:current"[5] == 'c';
  }

  /** The back button, with `page:<page-1>`, is offered exactly when `page > 0`. */
  lemma PrevOfferedIff(page: int, totalPages: int)
    ensures "page:" + IntToString(page - 1) in Callbacks(PaginationRow(page, totalPages)) <==> page > 0
  {
    var row := PaginationRow(page, totalPages);
    var c := "page:" + IntToString(page - 1);
    if page <= 0 {
      CurrentIsNoPage(page - 1);
      if page < totalPages - 1 {
        IntToStringInjective(page - 1, page + 1);
        assert "page:" + IntToString(page + 1) != c by {
          assert ("page:" + IntToString(page + 1))[5..] == IntToString(page + 1);
          assert c[5..] == IntToString(page - 1);
        }
      }
      assert row == [IndicatorButton(page, totalPages)]
        + (if page < totalPages - 1 then [NextButton(page)] else []);
    } else {
      assert PrevButton(page) in row;
    }
  }

  /** The forward button, with `page:<page+1>`, is offered exactly when `page < totalPages - 1`. */
  lemma NextOfferedIff(page: int, totalPages: int)
    ensures "page:" + IntToString(page + 1) in Callbacks(PaginationRow(page, totalPages)) <==> page < totalPages - 1
  {
    var row := PaginationRow(page, totalPages);
    var c := "page:" + IntToString(page + 1);
    if page >= totalPages - 1 {
      CurrentIsNoPage(page + 1);
      if page > 0 {
        IntToStringInjective(page - 1, page + 1);
        assert "page:" + IntToString(page - 1) != c by {
          assert ("page:" + IntToString(page - 1))[5..] == IntToString(page - 1);
          assert c[5..] == IntToString(page + 1);
        }
      }
      assert row == (if page > 0 then [PrevButton(page)] else []) + [IndicatorButton(page, totalPages)];
    } else {
      assert NextButton(page) in row;
    }
  }

  /** The indicator is always offered, and shows `page+1/total`. */
  lemma IndicatorAlwaysOffered(page: int, totalPages: int)
    ensures IndicatorButton(page, totalPages) in PaginationRow(page, totalPages)
    ensures "page:current" in Callbacks(PaginationRow(page, totalPages))
  {
    assert IndicatorButton(page, totalPages) in PaginationRow(page, totalPages);
  }

  /** A file button's callback starts with `file:`, so it is never a pagination callback. */
  lemma FileButtonIsNoPage(f: FileInfo, sizeText: nat -> string)
    ensures FileButton(f, sizeText).callback != "page:current"
  {
    assert FileButton(f, sizeText).callback[0] == 'f';
  }

  // ---------------------------------------------------------------------------
  // the callbacks read back (bot/handlers/callbacks.py)

  /**
   * The file id an action callback carries: `data.split(":")[1]`, the text
   * between the first ':' and the next ':' or the end; `None` where Python's
   * index would fail, that is when there is no ':' at all.
   */
  function FileIdOfCallback(data: string): (id: Option<string>)
    ensures id.Some? <==> ':' in data
    ensures id.Some? ==> ':' !in id.value && exists k :: FieldAt(data, k, id.value)
  {
    var pieces := Split(data, ':');
    SplitSeveral(data, ':');
    if |pieces| < 2 then None
    else
      SplitFirstTwo(data, ':');
      assert FieldAt(data, |pieces[0]|, pieces[1]);
      Some(pieces[1])
  }

  /** `v` sits right after the first ':' of `data`, at `k`, and runs to the next ':' or the end. */
  predicate FieldAt(data: string, k: int, v: string)
  {
    && 0 <= k < |data| && data[k] == ':' && ':' !in data[..k]
    && k + 1 + |v| <= |data| && data[k + 1..k + 1 + |v|] == v
    && (k + 1 + |v| < |data| ==> data[k + 1 + |v|] == ':')
  }

  /**
   * The page a `page:` callback asks for: `None` for `page:current`, else
   * `int(data.split(":")[1])`, the number in the same field an action callback
   * carries its file id in.
   */
  function PageOfCallback(data: string): (r: Option<int>)
    ensures data == "page:current" ==> r.None?
    ensures data != "page:current" ==>
      r == (if FileIdOfCallback(data).Some? then ParseInt(FileIdOfCallback(data).value) else None)
  {
    if data == "page:current" then None
    else
      var pieces := Split(data, ':');
      if |pieces| < 2 then None else ParseInt(pieces[1])
  }

  /** The page callbacks the keyboard sends read back as the page they name. */
  lemma PageCallbackRoundTrip(p: int)
    ensures PageOfCallback("page:" + IntToString(p)) == Some(p)
  {
    var s := IntToString(p);
    NoColonInIntToString(p);
    CurrentIsNoPage(p);
    assert Join(["page", s], [':']) == "page:" + s;
    SplitJoin(["page", s], ':');
    ParseIntToString(p);
  }

  /** A file id without ':' reads back from every callback built from it. */
  lemma FileCallbackRoundTrip(action: string, fileId: string)
    requires ':' !in action && ':' !in fileId
    ensures FileIdOfCallback(action + ":" + fileId) == Some(fileId)
  {
    assert Join([action, fileId], [':']) == action + ":" + fileId;
    SplitJoin([action, fileId], ':');
  }
}
