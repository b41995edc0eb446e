/**
 * The bot's per-user state and the dispatch of `/clean`.
 *
 * An upload whose file name ends in `.pdf` (in any case) is saved as
 * `pdf_files/{user}_{time}_{file name}` and becomes the user's current PDF.
 * `require_pdf` lets a command through only when the user has a current PDF
 * that still exists; `/clean` then queues a job that cleans that PDF into the
 * path `pdf.replace(".pdf", "_clean.pdf")`, which is the PDF itself when its
 * path holds no lower-case `.pdf`.
 */
module Bot {
  import opened Wrappers
  import opened Strings
  import opened Jobs

  /** A Telegram user id; a Unix time in whole seconds is also a `nat`. */
  type UserId = nat

  const WorkDir: string := "pdf_files"
  const NotPdfReply: string := "Please upload a PDF file."
  const DownloadingReply: string := "Downloading your PDF..."
  const NoPdfReply: string := "Please upload a PDF first."

  /** The document attached to a message. */
  datatype Document = Document(fileName: string)

  /**
   * A message sent to a user. `Received` is the "PDF received" message; the
   * page count and size it also shows come from the PDF library and the file
   * system and are not modelled.
   */
  datatype Reply = Text(to: UserId, text: string) | Received(to: UserId, savedAs: string)

  /** The task `/clean` queues: whose PDF, the PDF to clean and where the result goes. */
  datatype Job = CleanJob(user: UserId, input: string, output: string)

  /** `file_name.lower().endswith(".pdf")`. */
  predicate IsPdfName(name: string) {
    EndsWith(Lower(name), ".pdf")
  }

  /** The upload check accepts exactly the names whose last four characters are `.`, `p`/`P`, `d`/`D`, `f`/`F`. */
  lemma IsPdfNameIgnoresCase(name: string)
    ensures IsPdfName(name) <==>
      |name| >= 4 && name[|name| - 4] == '.' && name[|name| - 3] in "pP" && name[|name| - 2] in "dD" && name[|name| - 1] in "fF"
  {
    var low := Lower(name);
    if |name| >= 4 {
      var n := |name|;
      assert low[n - 4..] == [low[n - 4], low[n - 3], low[n - 2], low[n - 1]];
    }
  }

  /** A path whose file name passed the check still passes it once a directory is put in front. */
  lemma IsPdfNameOfPath(dir: string, name: string)
    requires IsPdfName(name)
    ensures IsPdfName(dir + name)
  {
    IsPdfNameIgnoresCase(name);
    var path := dir + name;
    assert path[|path| - 4..] == name[|name| - 4..];
    IsPdfNameIgnoresCase(path);
  }

  /** `f"{user}_{time}_{file_name}"`. */
  function SafeName(user: UserId, time: nat, fileName: string): string {
    NatToDecimal(user) + "_" + NatToDecimal(time) + "_" + fileName
  }

  /** `os.path.join(WORK, name)`; `name` starts with a digit, so it is never absolute. */
  function LocalPath(name: string): string {
    WorkDir + "/" + name
  }

  /** A path `handle_pdf_upload` can record: under the work directory, with a PDF name. */
  predicate IsStoredPath(path: string) {
    StartsWith(path, WorkDir + "/") && IsPdfName(path)
  }

  /** An upload that passed the check is saved under a path `handle_pdf_upload` can record. */
  lemma StoredUpload(user: UserId, time: nat, fileName: string)
    requires IsPdfName(fileName)
    ensures IsStoredPath(LocalPath(SafeName(user, time, fileName)))
  {
    var dir := WorkDir + "/";
    var rest := SafeName(user, time, fileName);
    var path := LocalPath(SafeName(user, time, fileName));
    assert rest == NatToDecimal(user) + "_" + NatToDecimal(time) + "_" + fileName;
    IsPdfNameOfPath(dir + NatToDecimal(user) + "_" + NatToDecimal(time) + "_", fileName);
    assert path == dir + NatToDecimal(user) + "_" + NatToDecimal(time) + "_" + fileName;
    assert path[..|dir|] == dir;
  }

  /** The first position of `c` in `s`, if any. */
  function IndexOf(s: string, c: char): (r: Option<nat>)
    ensures r.None? <==> c !in s
    ensures r.Some? ==> r.value < |s| && s[r.value] == c && c !in s[..r.value]
  {
    if s == [] then None
    else if s[0] == c then Some(0)
    else
      match IndexOf(s[1..], c)
      case None => None
      case Some(i) =>
        assert s[..i + 1] == [s[0]] + s[1..][..i];
        Some(i + 1)
  }

  /** Reads a saved file name back into the user, the time and the original file name. */
  function ParseSafeName(name: string): Option<(UserId, nat, string)> {
    match IndexOf(name, '_')
    case None => None
    case Some(i) =>
      var rest := name[i + 1..];
      match IndexOf(rest, '_')
      case None => None
      case Some(j) =>
        if AllDigits(name[..i]) && AllDigits(rest[..j]) then
          Some((DecimalValue(name[..i]), DecimalValue(rest[..j]), rest[j + 1..]))
        else None
  }

  /** In `digits + "_" + rest`, the first `_` is the one after the digits. */
  lemma IndexAfterDigits(digits: string, rest: string)
    requires AllDigits(digits)
    ensures var s := digits + "_" + rest;
      IndexOf(s, '_') == Some(|digits|) && s[..|digits|] == digits && s[|digits| + 1..] == rest
  {
    var s := digits + "_" + rest;
    assert s[|digits|] == '_';
    assert s[..|digits|] == digits;
    assert s[|digits| + 1..] == rest;
  }

  /**
   * The saved name gives back the user, the time and the file name it was
   * made of; so two uploads that differ in any of them never share a name.
   */
  lemma ParseSafeNameRoundTrip(user: UserId, time: nat, fileName: string)
    ensures ParseSafeName(SafeName(user, time, fileName)) == Some((user, time, fileName))
  {
    var u, t := NatToDecimal(user), NatToDecimal(time);
    var tail := t + "_" + fileName;
    assert SafeName(user, time, fileName) == u + "_" + tail;
    IndexAfterDigits(u, tail);
    IndexAfterDigits(t, fileName);
    DecimalRoundTrip(user);
    DecimalRoundTrip(time);
  }

  lemma SafeNameInjective(u1: UserId, t1: nat, f1: string, u2: UserId, t2: nat, f2: string)
    requires SafeName(u1, t1, f1) == SafeName(u2, t2, f2)
    ensures u1 == u2 && t1 == t2 && f1 == f2
  {
    ParseSafeNameRoundTrip(u1, t1, f1);
    ParseSafeNameRoundTrip(u2, t2, f2);
  }

  /** `os.path.basename(path)`: what follows the last `/`. */
  function Basename(path: string): (base: string)
    ensures '/' !in base
    ensures EndsWith(path, base)
    ensures |base| == |path| || path[|path| - |base| - 1] == '/'
  {
    if path == [] || path[|path| - 1] == '/' then []
    else
      var base := Basename(path[..|path| - 1]);
      assert path[|path| - |base| - 1..] == path[..|path| - 1][|path| - 1 - |base|..] + [path[|path| - 1]];
      base + [path[|path| - 1]]
  }

  lemma {:induction false} BasenameOfJoin(dir: string, name: string)
    requires '/' !in name
    ensures Basename(dir + "/" + name) == name
  {
    var path := dir + "/" + name;
    if name == [] {
      assert path[|path| - 1] == '/';
    } else {
      assert path[..|path| - 1] == dir + "/" + name[..|name| - 1];
      BasenameOfJoin(dir, name[..|name| - 1]);
      assert name[..|name| - 1] + [name[|name| - 1]] == name;
    }
  }

  /**
   * `pdf.replace(".pdf", "_clean.pdf")`, as `cmd_clean` writes it: never
   * shorter than the input, and for a path ending in lower-case `.pdf` a
   * different path ending in `_clean.pdf`.
   */
  function CleanOutputPath(pdf: string): (out: string)
    ensures |out| >= |pdf|
    ensures EndsWith(pdf, ".pdf") ==> EndsWith(out, "_clean.pdf") && out != pdf
  {
    ReplaceGrows(pdf);
    if EndsWith(pdf, ".pdf") then
      var x := pdf[..|pdf| - 4];
      assert pdf == x + ".pdf";
      ReplaceTrailingPdf(x);
      ReplaceGrows(x);
      ReplaceAll(pdf, ".pdf", "_clean.pdf")
    else
      ReplaceAll(pdf, ".pdf", "_clean.pdf")
  }

  lemma {:induction false} ReplaceGrows(s: string)
    ensures |ReplaceAll(s, ".pdf", "_clean.pdf")| >= |s|
  {
    if StartsWith(s, ".pdf") {
      ReplaceGrows(s[4..]);
    } else if s != [] {
      ReplaceGrows(s[1..]);
    }
  }

  /** A trailing `.pdf` is always one of the occurrences replaced. */
  lemma {:induction false} ReplaceTrailingPdf(x: string)
    ensures ReplaceAll(x + ".pdf", ".pdf", "_clean.pdf") == ReplaceAll(x, ".pdf", "_clean.pdf") + "_clean.pdf"
  {
    var s := x + ".pdf";
    if x == [] {
      assert s[4..] == [];
    } else if StartsWith(x, ".pdf") {
      assert s[4..] == x[4..] + ".pdf";
      ReplaceTrailingPdf(x[4..]);
    } else {
      assert !StartsWith(s, ".pdf") by {
        if |x| >= 4 {
          assert s[..4] == x[..4];
        } else {
          assert s[..4][|x|] == s[|x|] == '.' != ".pdf"[|x|];
        }
      }
      assert s[1..] == x[1..] + ".pdf";
      ReplaceTrailingPdf(x[1..]);
    }
  }

  /** No `.pdf` in `a + b` when `a` holds no dot and `b` is a four-character suffix other than `.pdf`. */
  lemma NoPdfBeforeSuffix(a: string, b: string)
    requires '.' !in a && |b| == 4 && b != ".pdf"
    ensures !Contains(a + b, ".pdf")
  {
    var s := a + b;
    forall i | 0 <= i <= |s| - 4
      ensures !OccursAt(s, ".pdf", i)
    {
      if i < |a| {
        assert s[i..i + 4][0] == a[i] && a[i] in a;
      } else {
        assert s[i..i + 4] == b;
      }
    }
  }

  /** A decimal numeral holds no dot. */
  lemma NoDotInDigits(s: string)
    requires AllDigits(s)
    ensures '.' !in s
  {
    forall k | 0 <= k < |s|
      ensures s[k] != '.'
    {
      assert IsDigit(s[k]);
    }
  }

  /**
   * An upload named `SCAN.PDF` passes the check, but its stored path holds no
   * lower-case `.pdf`, so the "clean" output path is the input path itself.
   */
  lemma UpperCasePdfCleansOntoItself(user: UserId, time: nat)
    ensures IsPdfName("SCAN.PDF")
    ensures IsStoredPath(LocalPath(SafeName(user, time, "SCAN.PDF")))
    ensures CleanOutputPath(LocalPath(SafeName(user, time, "SCAN.PDF"))) == LocalPath(SafeName(user, time, "SCAN.PDF"))
  {
    var u, t := NatToDecimal(user), NatToDecimal(time);
    var path := LocalPath(SafeName(user, time, "SCAN.PDF"));
    IsPdfNameIgnoresCase("SCAN.PDF");
    StoredUpload(user, time, "SCAN.PDF");
    NoDotInDigits(u);
    NoDotInDigits(t);
    var a := WorkDir + "/" + u + "_" + t + "_SCAN";
    assert '.' !in a;
    assert path == a + ".PDF";
    assert ".PDF"[1] != ".pdf"[1];
    NoPdfBeforeSuffix(a, ".PDF");
    ReplaceWithout(path, ".pdf", "_clean.pdf");
  }

  /**
   * The output path evidently intended: the four-character PDF suffix, in
   * whatever case, becomes `_clean.pdf`, so the output never is the input.
   */
  function CleanOutputName(pdf: string): (out: string)
    requires IsPdfName(pdf)
    ensures out != pdf && EndsWith(out, "_clean.pdf")
    ensures |out| == |pdf| + 6 && out[..|pdf| - 4] == pdf[..|pdf| - 4]
  {
    pdf[..|pdf| - 4] + "_clean.pdf"
  }

  /** Where the name ends in lower-case `.pdf` and holds no other `.pdf`, both versions agree. */
  lemma CleanOutputNameAgrees(pdf: string)
    requires EndsWith(pdf, ".pdf") && !Contains(pdf[..|pdf| - 4], ".pdf")
    ensures IsPdfName(pdf)
    ensures CleanOutputName(pdf) == CleanOutputPath(pdf)
  {
    var x := pdf[..|pdf| - 4];
    assert pdf == x + ".pdf";
    IsPdfNameIgnoresCase(pdf);
    ReplaceTrailingPdf(x);
    ReplaceWithout(x, ".pdf", "_clean.pdf");
  }

  /**
   * `require_pdf`: the user's current PDF, or None when there is no
   * `last_pdf`, it is empty, or the file is gone.
   */
  function CurrentPdf(lastPdf: map<UserId, string>, user: UserId, fileExists: string -> bool): Option<string> {
    if user in lastPdf && lastPdf[user] != [] && fileExists(lastPdf[user]) then Some(lastPdf[user]) else None
  }

  /** After an upload the user's current PDF is the new file, whatever was there before; other users keep theirs. */
  lemma CurrentAfterUpload(lastPdf: map<UserId, string>, user: UserId, path: string, other: UserId, fileExists: string -> bool)
    requires path != [] && fileExists(path) && other != user
    ensures CurrentPdf(lastPdf[user := path], user, fileExists) == Some(path)
    ensures CurrentPdf(lastPdf[user := path], other, fileExists) == CurrentPdf(lastPdf, other, fileExists)
  {
  }

  /** The bot's state: every user's last upload, the replies sent, and the job queue. */
  class PdfBot {
    /** `context.user_data["last_pdf"]`, per user. */
    var lastPdf: map<UserId, string>
    /** The messages sent to users, oldest first. */
    var replies: seq<Reply>
    /** The global `job_queue`. */
    const queue: JobQueue<Job>

    ghost predicate Valid()
      reads this, queue
    {
      && queue.Valid()
      && forall u :: u in lastPdf ==> IsStoredPath(lastPdf[u])
    }

    constructor ()
      ensures Valid() && fresh(queue)
      ensures lastPdf == map[] && replies == []
      ensures queue.pending == [] && queue.history == []
    {
      lastPdf, replies := map[], [];
      queue := new JobQueue();
    }

    /**
     * `handle_pdf_upload`. `now` is `int(time.time())`; `downloaded` says
     * whether the download went through (when it raises, the handler stops
     * before recording the file).
     */
    method HandleUpload(user: UserId, doc: Option<Document>, now: nat, downloaded: bool)
      requires Valid()
      modifies this
      ensures Valid()
      ensures doc.None? || !IsPdfName(doc.value.fileName) ==>
                replies == old(replies) + [Text(user, NotPdfReply)] && lastPdf == old(lastPdf)
      ensures doc.Some? && IsPdfName(doc.value.fileName) ==>
                var path := LocalPath(SafeName(user, now, doc.value.fileName));
                && replies == old(replies) + [Text(user, DownloadingReply)]
                             + (if downloaded then [Received(user, Basename(path))] else [])
                && lastPdf == (if downloaded then old(lastPdf)[user := path] else old(lastPdf))
    {
      if doc.None? || !IsPdfName(doc.value.fileName) {
        replies := replies + [Text(user, NotPdfReply)];
        return;
      }
      var safeName := SafeName(user, now, doc.value.fileName);
      var path := LocalPath(safeName);
      replies := replies + [Text(user, DownloadingReply)];
      if !downloaded {
        return;
      }
      StoredUpload(user, now, doc.value.fileName);
      lastPdf := lastPdf[user := path];
      replies := replies + [Received(user, Basename(path))];
    }

    /**
     * `/clean` behind `require_pdf`: with no current PDF, one reply and
     * nothing queued; otherwise the clean job for the current PDF, with the
     * output path `cmd_clean` computes, is queued and nothing is sent yet.
     */
    method CmdClean(user: UserId, fileExists: string -> bool)
      requires Valid()
      modifies this, queue
      ensures Valid()
      ensures lastPdf == old(lastPdf) && queue.history == old(queue.history)
      ensures CurrentPdf(old(lastPdf), user, fileExists).None? ==>
                replies == old(replies) + [Text(user, NoPdfReply)] && queue.pending == old(queue.pending)
      ensures CurrentPdf(old(lastPdf), user, fileExists).Some? ==>
                var pdf := old(lastPdf)[user];
                replies == old(replies) && queue.pending == old(queue.pending) + [CleanJob(user, pdf, CleanOutputPath(pdf))]
    {
      var current := CurrentPdf(lastPdf, user, fileExists);
      if current.None? {
        replies := replies + [Text(user, NoPdfReply)];
        return;
      }
      var pdf := lastPdf[user];
      var out := CleanOutputPath(pdf);
      queue.Enqueue(CleanJob(user, pdf, out));
    }

    /**
     * An upload that downloads, then `/clean` while the saved file exists:
     * the upload becomes the user's PDF and exactly one clean job, for that
     * file, is queued.
     */
    method UploadThenClean(user: UserId, doc: Document, now: nat, fileExists: string -> bool)
      requires Valid() && IsPdfName(doc.fileName)
      requires fileExists(LocalPath(SafeName(user, now, doc.fileName)))
      modifies this, queue
      ensures Valid()
      ensures var path := LocalPath(SafeName(user, now, doc.fileName));
        && lastPdf == old(lastPdf)[user := path]
        && replies == old(replies) + [Text(user, DownloadingReply), Received(user, Basename(path))]
        && queue.pending == old(queue.pending) + [CleanJob(user, path, CleanOutputPath(path))]
        && queue.history == old(queue.history)
    {
      var path := LocalPath(SafeName(user, now, doc.fileName));
      HandleUpload(user, Some(doc), now, true);
      CurrentAfterUpload(old(lastPdf), user, path, user + 1, fileExists);
      CmdClean(user, fileExists);
    }
  }
}
