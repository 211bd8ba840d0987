/**
 The size-rotating file sink over a map from file names to contents. Renaming may fail;
 opening, writing and closing files do not.
 */
module RotatingSink {
  import opened Wrappers
  import opened DigitSpec
  import opened Decimals

  type Content = seq<Byte>

  // ---------- file names ----------

  const FOLDER_SEP := '/'

  /** The position of the last c in s, or -1. */
  function RFind(s: string, c: char): (p: int)
    ensures -1 <= p < |s|
    ensures p >= 0 ==> s[p] == c
    ensures forall i :: p < i < |s| ==> s[i] != c
  {
    if |s| == 0 then -1
    else if s[|s| - 1] == c then |s| - 1
    else RFind(s[..|s| - 1], c)
  }

  predicate MayBeExtension(name: string, d: int) {
    1 <= d < |name| - 1 && name[d] == '.' && name[d - 1] != FOLDER_SEP
  }

  predicate DotOrFolderAfter(name: string, d: int) {
    exists i :: 0 <= i < |name| && d < i && (name[i] == '.' || name[i] == FOLDER_SEP)
  }

  function SplitByExtension(name: string): (r: (string, string))
    ensures r.0 + r.1 == name
  {
    var ext := RFind(name, '.');
    if ext == -1 || ext == 0 || ext == |name| - 1 then
      (name, "")
    else
      var folder := RFind(name, FOLDER_SEP);
      if folder != -1 && folder >= ext - 1 then (name, "")
      else (name[..ext], name[ext..])
  }

  /** An extension starts at the last dot of the name, which neither begins nor ends the name
      of the file within its folder; without an extension there is no such dot. */
  lemma ExtensionIsLastDot(name: string)
    ensures var (base, ext) := SplitByExtension(name);
            if ext == "" then forall d :: MayBeExtension(name, d) ==> DotOrFolderAfter(name, d)
            else MayBeExtension(name, |base|) && !DotOrFolderAfter(name, |base|)
  {
    var ext, folder := RFind(name, '.'), RFind(name, FOLDER_SEP);
    forall d | MayBeExtension(name, d) && SplitByExtension(name).1 == ""
      ensures DotOrFolderAfter(name, d)
    {
      assert ext >= d && name[ext] == '.';
      if ext == d {
        assert folder >= d - 1 && name[folder] == FOLDER_SEP;
      }
    }
  }

  function CalcFilename(name: string, index: nat): string {
    if index == 0 then name
    else
      var (base, ext) := SplitByExtension(name);
      base + "." + Decimal(index) + ext
  }

  /** A rotated file's name: the base, a dot, the index in decimal, and the extension; an
      extension of the base file is one of the rotated files too. */
  lemma RotatedName(name: string, index: nat)
    requires index > 0
    ensures var (base, ext) := SplitByExtension(name);
            var full, n := CalcFilename(name, index), |CalcFilename(name, index)| - |ext|;
            && |base| + 1 < n && base + "." == full[..|base| + 1] && full[n..] == ext
            && AllDigits(full[|base| + 1..n]) && DecimalValue(full[|base| + 1..n]) == index
            && full[|base| + 1] != '0'
            && (ext != "" ==> SplitByExtension(full) == (full[..n], ext))
  {
    var (base, ext) := SplitByExtension(name);
    var digits, full := Decimal(index), CalcFilename(name, index);
    DecimalReadsBack(index);
    assert full[..|base| + 1] == base + "." && full[|base| + 1..|full| - |ext|] == digits;
    assert full[|full| - |ext|..] == ext;
    if ext != "" {
      ExtensionIsLastDot(name);
      SameExtension(name, full, |base|, |base| + 1 + |digits|);
    }
  }

  /** A name with the same extension from e on as another has from d on. */
  lemma SameExtension(name: string, full: string, d: nat, e: nat)
    requires MayBeExtension(name, d) && !DotOrFolderAfter(name, d)
    requires 2 <= e < |full| && full[e - 1] != FOLDER_SEP && full[e..] == name[d..]
    ensures SplitByExtension(full) == (full[..e], full[e..])
  {
    assert full[e] == name[d..][0];
    forall i | e < i < |full|
      ensures full[i] != '.' && full[i] != FOLDER_SEP
    {
      assert full[i] == full[e..][i - e] == name[d + (i - e)];
    }
    assert RFind(full, '.') == e;
  }

  lemma MiddlePart(x: string, y: string, z: string)
    ensures (x + y + z)[|x|..][..|y|] == y
  {
  }

  lemma SameMiddle(x: string, y: string, y': string, z: string)
    requires x + y + z == x + y' + z
    ensures y == y'
  {
    assert |x + y + z| == |x + y' + z|;
    MiddlePart(x, y, z);
    MiddlePart(x, y', z);
  }

  lemma NamesAreDistinct(name: string, i: nat, j: nat)
    requires CalcFilename(name, i) == CalcFilename(name, j)
    ensures i == j
  {
    var (base, ext) := SplitByExtension(name);
    if i == 0 || j == 0 {
      assert |base| + |ext| == |name|;
    } else {
      SameMiddle(base + ".", Decimal(i), Decimal(j), ext);
      DecimalIsInjective(i, j);
    }
  }

  // ---------- contents ----------

  function Get<V>(m: map<string, V>, name: string): (r: Lookup<V>) {
    if name in m then Found(m[name]) else Missing
  }

  datatype Lookup<V> = Missing | Found(value: V)

  /** A map of files after one of them has replaced another. */
  function Renamed<V>(m: map<string, V>, src: string, target: string): map<string, V> {
    if src in m then (m - {src})[target := m[src]] else m - {target}
  }

  ghost function ContentAt(files: map<string, Content>, name: string, i: nat): Content {
    if CalcFilename(name, i) in files then files[CalcFilename(name, i)] else []
  }

  /** The rotated files from the k-th, the oldest one, to the base file. */
  ghost function History(files: map<string, Content>, name: string, k: nat): Content {
    ContentAt(files, name, k) + if k == 0 then [] else History(files, name, k - 1)
  }

  ghost predicate IsSuffix(s: Content, t: Content) {
    |s| <= |t| && s == t[|t| - |s|..]
  }

  /** What the renaming loop has done when files above i have been dealt with. */
  ghost predicate MovedAbove<V>(before: map<string, V>, after: map<string, V>, name: string,
                                max: nat, i: nat, lastMoved: bool) {
    && (forall j :: 0 <= j < i ==> Get(after, CalcFilename(name, j)) == Get(before, CalcFilename(name, j)))
    && (i < max ==> CalcFilename(name, i) !in after)
    && (i == max ==> Get(after, CalcFilename(name, max)) == Get(before, CalcFilename(name, max)))
    && (forall j :: i < j < max ==> Get(after, CalcFilename(name, j)) == Get(before, CalcFilename(name, j - 1)))
    && (i < max ==> Get(after, CalcFilename(name, max))
                    == Get(before, CalcFilename(name, if lastMoved then max - 1 else max)))
  }

  lemma MovedOneMore<V>(before: map<string, V>, after: map<string, V>, name: string, max: nat,
                        i: nat, lastMoved: bool)
    requires 1 <= i <= max && MovedAbove(before, after, name, max, i, lastMoved)
    requires i == max ==> lastMoved
    ensures MovedAbove(before, Renamed(after, CalcFilename(name, i - 1), CalcFilename(name, i)),
                       name, max, i - 1, lastMoved)
  {
    forall j | 0 <= j <= max
      ensures Get(Renamed(after, CalcFilename(name, i - 1), CalcFilename(name, i)), CalcFilename(name, j))
           == if j == i then Get(after, CalcFilename(name, i - 1))
              else if j == i - 1 then Missing else Get(after, CalcFilename(name, j))
    {
      RenamedGet(after, name, i, j);
    }
  }

  lemma RenamedGet<V>(m: map<string, V>, name: string, i: nat, j: nat)
    requires i >= 1
    ensures Get(Renamed(m, CalcFilename(name, i - 1), CalcFilename(name, i)), CalcFilename(name, j))
         == if j == i then Get(m, CalcFilename(name, i - 1))
            else if j == i - 1 then Missing else Get(m, CalcFilename(name, j))
  {
    var src, target, n := CalcFilename(name, i - 1), CalcFilename(name, i), CalcFilename(name, j);
    if src == target {
      NamesAreDistinct(name, i - 1, i);
    }
    if n == src {
      NamesAreDistinct(name, i - 1, j);
    }
    if n == target {
      NamesAreDistinct(name, i, j);
    }
    GetRenamed(m, src, target, n);
  }

  lemma GetRenamed<V>(m: map<string, V>, src: string, target: string, n: string)
    requires src != target
    ensures Get(Renamed(m, src, target), n)
         == if n == target then Get(m, src) else if n == src then Missing else Get(m, n)
  {
  }

  lemma MovedNothing<V>(before: map<string, V>, after: map<string, V>, name: string, max: nat,
                        i: nat, lastMoved: bool)
    requires 1 <= i <= max && MovedAbove(before, after, name, max, i, lastMoved)
    requires CalcFilename(name, i - 1) !in after
    requires i == max ==> !lastMoved
    ensures MovedAbove(before, after, name, max, i - 1, lastMoved)
  {
  }

  // ---------- what rotation does to the history ----------

  lemma {:induction false} ShiftedHistory(before: map<string, Content>, after: map<string, Content>,
                                          name: string, k: nat)
    requires Get(after, CalcFilename(name, 0)) == Found([])
    requires forall j :: 1 <= j <= k ==> Get(after, CalcFilename(name, j)) == Get(before, CalcFilename(name, j - 1))
    ensures History(after, name, k) == if k == 0 then [] else History(before, name, k - 1)
  {
    if k > 0 {
      assert Get(after, CalcFilename(name, k)) == Get(before, CalcFilename(name, k - 1));
      ShiftedHistory(before, after, name, k - 1);
    }
  }

  /** Every file has moved up by one, except that the last one stays if there is none below
      it to replace it, and the base file is empty. */
  ghost predicate RotatedInto(before: map<string, Content>, after: map<string, Content>,
                              name: string, max: nat) {
    && Get(after, CalcFilename(name, 0)) == Found([])
    && (forall j :: 1 <= j < max ==> Get(after, CalcFilename(name, j)) == Get(before, CalcFilename(name, j - 1)))
    && (max >= 1 ==> Get(after, CalcFilename(name, max))
                     == Get(before, CalcFilename(name, if CalcFilename(name, max - 1) in before then max - 1 else max)))
    && OthersKept(before, after, name, max)
  }

  /** One of the files that rotation is about. */
  ghost predicate IsRotated(name: string, max: nat, n: string) {
    exists j: nat :: j <= max && n == CalcFilename(name, j)
  }

  ghost predicate OthersKept<V>(before: map<string, V>, after: map<string, V>, name: string, max: nat) {
    forall n :: !IsRotated(name, max, n) ==> Get(after, n) == Get(before, n)
  }

  /** The state of the renaming loop. */
  ghost predicate Moving<V>(before: map<string, V>, files: map<string, V>, name: string, max: nat, i: nat,
                            lastMoved: bool) {
    MovedAbove(before, files, name, max, i, lastMoved) && OthersKept(before, files, name, max)
  }

  lemma RenamedOthers<V>(before: map<string, V>, m: map<string, V>, name: string, max: nat, i: nat)
    requires 1 <= i <= max && OthersKept(before, m, name, max)
    ensures OthersKept(before, Renamed(m, CalcFilename(name, i - 1), CalcFilename(name, i)), name, max)
    ensures OthersKept(before, m - {CalcFilename(name, i)}, name, max)
  {
    assert IsRotated(name, max, CalcFilename(name, i - 1)) && IsRotated(name, max, CalcFilename(name, i));
  }

  lemma EmptiedOthers(before: map<string, Content>, m: map<string, Content>, name: string, max: nat)
    requires OthersKept(before, m, name, max)
    ensures OthersKept(before, m[name := []], name, max)
  {
    assert CalcFilename(name, 0) == name;
    assert IsRotated(name, max, name);
  }

  /** What is left when the i-th renaming has failed for good: the files above have moved up,
      the target may be gone, and all others are as they were. */
  ghost predicate StuckAt(before: map<string, Content>, left: map<string, Content>, name: string, max: nat, i: nat) {
    && 1 <= i <= max
    && exists moved ::
         && Moving(before, moved, name, max, i, CalcFilename(name, max - 1) in before)
         && (left == moved || left == moved - {CalcFilename(name, i)})
  }

  /** After that the base file is emptied. */
  ghost predicate Stopped(before: map<string, Content>, after: map<string, Content>, name: string, max: nat) {
    exists left, i: nat :: StuckAt(before, left, name, max, i) && after == left[name := []]
  }

  /** Rotation loses nothing but the content of the last file, and that only to another one. */
  lemma RotationKeepsHistory(before: map<string, Content>, after: map<string, Content>,
                             name: string, max: nat)
    requires RotatedInto(before, after, name, max)
    ensures History(after, name, max)
         == if max == 0 then []
            else if CalcFilename(name, max - 1) in before then History(before, name, max - 1)
            else History(before, name, max)
  {
    if max >= 1 {
      ShiftedHistory(before, after, name, max - 1);
      var older := if max == 1 then [] else History(before, name, max - 2);
      assert History(after, name, max) == ContentAt(after, name, max) + older;
      LastTwo(before, name, max, older);
    }
  }

  lemma LastTwo(files: map<string, Content>, name: string, max: nat, older: Content)
    requires max >= 1 && older == if max == 1 then [] else History(files, name, max - 2)
    ensures History(files, name, max - 1) == ContentAt(files, name, max - 1) + older
    ensures CalcFilename(name, max - 1) !in files
        ==> History(files, name, max) == ContentAt(files, name, max) + older
  {
    HistoryStep(files, name, max);
    HistoryStep(files, name, max - 1);
    Prepended(ContentAt(files, name, max - 1), older);
  }

  lemma HistoryStep(files: map<string, Content>, name: string, k: nat)
    ensures History(files, name, k) == ContentAt(files, name, k) + if k == 0 then [] else History(files, name, k - 1)
  {
  }

  lemma Prepended(a: Content, b: Content)
    ensures a == [] ==> a + b == b
  {
  }

  lemma SuffixOfHistory(files: map<string, Content>, name: string, max: nat, logged: Content)
    requires IsSuffix(History(files, name, max), logged)
    ensures max >= 1 ==> IsSuffix(History(files, name, max - 1), logged)
    ensures IsSuffix([], logged)
  {
  }

  lemma AppendedContent(files: map<string, Content>, name: string, k: nat, msg: Content)
    requires name in files
    ensures ContentAt(files[name := files[name] + msg], name, k)
         == ContentAt(files, name, k) + if k == 0 then msg else []
  {
    if k > 0 && CalcFilename(name, k) == CalcFilename(name, 0) {
      NamesAreDistinct(name, k, 0);
    }
  }

  lemma {:induction false} AppendedHistory(files: map<string, Content>, name: string, k: nat, msg: Content)
    requires name in files
    ensures History(files[name := files[name] + msg], name, k) == History(files, name, k) + msg
  {
    AppendedContent(files, name, k, msg);
    HistoryStep(files, name, k);
    HistoryStep(files[name := files[name] + msg], name, k);
    if k > 0 {
      AppendedHistory(files, name, k - 1, msg);
      Regrouped(ContentAt(files, name, k), History(files, name, k - 1), msg);
    } else {
      Regrouped(ContentAt(files, name, k), [], msg);
    }
  }

  lemma Regrouped(a: Content, b: Content, c: Content)
    ensures a + [] + (b + c) == a + b + c && a + c + b + [] == a + c + b
    ensures b == [] ==> a + c + [] == a + b + c
  {
  }

  // ---------- attempts to rename ----------

  datatype Attempt = Attempt(src: string, target: string, ok: bool)

  /** Some renaming has failed twice in a row. */
  ghost predicate FailedTwice(attempts: seq<Attempt>) {
    exists i :: 0 <= i < |attempts| - 1 && !attempts[i].ok && attempts[i] == attempts[i + 1]
  }

  /** A renaming that is tried once more if it fails. */
  ghost predicate Tried(attempts: seq<Attempt>, src: string, target: string, ok: bool) {
    if ok then attempts == [Attempt(src, target, true)]
               || attempts == [Attempt(src, target, false), Attempt(src, target, true)]
    else attempts == [Attempt(src, target, false), Attempt(src, target, false)]
  }

  /** No renaming has failed for good so far. */
  ghost predicate GoneWell(attempts: seq<Attempt>) {
    !FailedTwice(attempts) && (|attempts| > 0 ==> attempts[|attempts| - 1].ok)
  }

  lemma TriedAgain(attempts: seq<Attempt>, more: seq<Attempt>, src: string, target: string, ok: bool)
    requires GoneWell(attempts) && Tried(more, src, target, ok)
    ensures ok ==> GoneWell(attempts + more)
    ensures !ok ==> FailedTwice(attempts + more)
  {
    var all, n := attempts + more, |attempts|;
    if !ok {
      assert all[n] == all[n + 1] == Attempt(src, target, false);
    } else {
      forall i | 0 <= i < |all| - 1 && !all[i].ok
        ensures all[i] != all[i + 1]
      {
        assert i < n - 1 ==> all[i] == attempts[i] && all[i + 1] == attempts[i + 1];
      }
    }
  }

  /** From the attempts now to those later, by one turn of the renaming loop. */
  lemma NextAttempts(start: seq<Attempt>, now: seq<Attempt>, later: seq<Attempt>, src: string, target: string, ok: bool)
    requires start <= now <= later && GoneWell(now[|start|..])
    requires Tried(later[|now|..], src, target, ok) || (ok && later == now)
    ensures ok ==> GoneWell(later[|start|..])
    ensures !ok ==> FailedTwice(later[|start|..])
  {
    var tried, more := now[|start|..], later[|now|..];
    assert later[|start|..] == tried + more;
    if later == now {
      assert tried + more == tried;
    } else {
      TriedAgain(tried, more, src, target, ok);
    }
  }

  // ---------- the sink ----------

  class Disk {
    var files: map<string, Content>
    ghost var attempts: seq<Attempt> // all renamings so far, in order

    constructor (files: map<string, Content>)
      ensures this.files == files && attempts == []
    {
      this.files, attempts := files, [];
    }

    /** Deletes the target and renames the source to it; either may fail, and only the second
        failure is reported. */
    method RenameFile(src: string, target: string) returns (ok: bool)
      requires src in files && src != target
      modifies this
      ensures attempts == old(attempts) + [Attempt(src, target, ok)]
      ensures ok ==> files == Renamed(old(files), src, target)
      ensures !ok ==> files == old(files) || files == old(files) - {target}
    {
      var removed: bool := *;
      if removed {
        files := files - {target};
      }
      ok := *;
      if ok {
        files := (files - {src})[target := files[src]];
      }
      attempts := attempts + [Attempt(src, target, ok)];
    }

    /** A failed renaming is tried once more. */
    method RenameTwice(src: string, target: string) returns (ok: bool)
      requires src in files && src != target
      modifies this
      ensures old(attempts) <= attempts && Tried(attempts[|old(attempts)|..], src, target, ok)
      ensures ok ==> files == Renamed(old(files), src, target)
      ensures !ok ==> files == old(files) || files == old(files) - {target}
    {
      ok := RenameFile(src, target);
      if !ok {
        RenamedAfterRemoval(old(files), src, target);
        ok := RenameFile(src, target);
      }
    }
  }

  ghost function Flatten(messages: seq<Content>): Content {
    if |messages| == 0 then [] else Flatten(messages[..|messages| - 1]) + messages[|messages| - 1]
  }

  /** The files that the sink has filled from empty hold the recorded messages, and are within
      the limit or hold a single one. */
  ghost predicate Tracked(files: map<string, Content>, messages: map<string, seq<Content>>, maxSize: nat) {
    forall n :: n in messages
      ==> (n in files && files[n] == Flatten(messages[n])
           && (|files[n]| <= maxSize || |messages[n]| <= 1))
  }

  class RotatingFileSink {
    const baseFilename: string
    const maxSize: nat
    const maxFiles: nat
    const disk: Disk
    var currentSize: nat

    ghost var logged: Content // what the files held at first, and everything logged since
    ghost var messages: map<string, seq<Content>>
    ghost var intact: bool // no rotation has failed

    ghost predicate Valid()
      reads this, disk
    {
      && baseFilename in disk.files && |disk.files[baseFilename]| <= currentSize
      && Tracked(disk.files, messages, maxSize)
      && (intact ==> IsSuffix(History(disk.files, baseFilename, maxFiles), logged))
    }

    /** Opens the base file for appending and records its size. */
    constructor (baseFilename: string, maxSize: nat, maxFiles: nat, disk: Disk)
      modifies disk
      ensures Valid() && intact && this.disk == disk && messages.Keys <= {baseFilename}
      ensures this.baseFilename == baseFilename && this.maxSize == maxSize && this.maxFiles == maxFiles
      ensures logged == History(disk.files, baseFilename, maxFiles)
      ensures disk.files == if baseFilename in old(disk.files) then old(disk.files)
                            else old(disk.files)[baseFilename := []]
      ensures currentSize == |disk.files[baseFilename]| && disk.attempts == old(disk.attempts)
    {
      this.baseFilename, this.maxSize, this.maxFiles, this.disk := baseFilename, maxSize, maxFiles, disk;
      intact := true;
      currentSize, messages, logged := 0, map[], [];
      new;
      if baseFilename !in disk.files {
        disk.files := disk.files[baseFilename := []];
      }
      currentSize := |disk.files[baseFilename]|;
      logged := History(disk.files, baseFilename, maxFiles);
      if currentSize == 0 {
        messages := map[baseFilename := []];
      }
    }

    /** Rotates a base file that was not empty. The recorded size is not set back, so that it
        is only an upper bound from then on. When the rotation fails there is no sink. */
    method RotateOnOpen() returns (ok: bool)
      requires Valid() && intact
      modifies this, disk
      ensures Valid() && logged == old(logged) && (ok ==> intact && currentSize == old(currentSize))
      ensures old(currentSize) == 0 ==> ok && disk.files == old(disk.files)
      ensures ok && old(currentSize) > 0
          ==> RotatedInto(old(disk.files), disk.files, baseFilename, maxFiles)
      ensures old(disk.attempts) <= disk.attempts
      ensures ok <==> !FailedTwice(disk.attempts[|old(disk.attempts)|..])
      ensures !ok ==> Stopped(old(disk.files), disk.files, baseFilename, maxFiles)
    {
      ok := true;
      if currentSize > 0 {
        ok := Rotate();
      }
    }

    /** Appends a message, after a rotation if it would take the recorded size beyond the
        limit. */
    method SinkIt(formatted: Content) returns (ok: bool)
      requires Valid()
      modifies this, disk
      ensures old(currentSize) + |formatted| <= maxSize
          ==> && ok && currentSize == old(currentSize) + |formatted|
              && disk.files == old(disk.files)[baseFilename := old(disk.files[baseFilename]) + formatted]
      ensures ok && old(currentSize) + |formatted| > maxSize
          ==> && currentSize == |formatted|
              && (exists rotated :: RotatedInto(old(disk.files), rotated, baseFilename, maxFiles)
                                    && disk.files == rotated[baseFilename := formatted])
      ensures Valid() && (ok ==> intact == old(intact) && logged == old(logged) + formatted)
      ensures !ok ==> !intact && currentSize == 0 && disk.files[baseFilename] == []
      ensures old(disk.attempts) <= disk.attempts
      ensures ok <==> !FailedTwice(disk.attempts[|old(disk.attempts)|..])
      ensures !ok ==> Stopped(old(disk.files), disk.files, baseFilename, maxFiles)
    {
      currentSize := currentSize + |formatted|;
      if currentSize > maxSize {
        ok := Rotate();
        if !ok {
          return;
        }
        currentSize := |formatted|;
        assert [] + formatted == formatted;
      }
      Write(formatted);
      ok := true;
    }

    method Write(formatted: Content)
      requires baseFilename in disk.files && |disk.files[baseFilename]| + |formatted| <= currentSize
      requires currentSize <= maxSize || (baseFilename in messages && messages[baseFilename] == [])
      requires Tracked(disk.files, messages, maxSize)
      requires intact ==> IsSuffix(History(disk.files, baseFilename, maxFiles), logged)
      modifies this`logged, this`messages, disk
      ensures Valid() && logged == old(logged) + formatted && disk.attempts == old(disk.attempts)
      ensures disk.files == old(disk.files)[baseFilename := old(disk.files[baseFilename]) + formatted]
    {
      TrackedWrite(disk.files, messages, maxSize, baseFilename, formatted);
      if intact {
        SuffixWrite(disk.files, baseFilename, maxFiles, logged, formatted);
      }
      disk.files := disk.files[baseFilename := disk.files[baseFilename] + formatted];
      if baseFilename in messages {
        messages := messages[baseFilename := messages[baseFilename] + [formatted]];
      }
      logged := logged + formatted;
    }

    /** The renaming loop of a rotation, and the reopening of the base file. */
    method Rotate() returns (ok: bool)
      requires Tracked(disk.files, messages, maxSize) && baseFilename in disk.files
      requires intact ==> IsSuffix(History(disk.files, baseFilename, maxFiles), logged)
      modifies this`messages, this`currentSize, this`intact, disk
      ensures Tracked(disk.files, messages, maxSize)
      ensures baseFilename in disk.files && disk.files[baseFilename] == []
      ensures baseFilename in messages && messages[baseFilename] == []
      ensures ok ==> RotatedInto(old(disk.files), disk.files, baseFilename, maxFiles)
      ensures ok ==> currentSize == old(currentSize) && intact == old(intact)
      ensures !ok ==> currentSize == 0 && !intact
      ensures intact ==> IsSuffix(History(disk.files, baseFilename, maxFiles), logged)
      ensures old(disk.attempts) <= disk.attempts
      ensures ok <==> !FailedTwice(disk.attempts[|old(disk.attempts)|..])
      ensures !ok ==> Stopped(old(disk.files), disk.files, baseFilename, maxFiles)
    {
      ghost var before := disk.files;
      ghost var lastMoved := maxFiles >= 1 && CalcFilename(baseFilename, maxFiles - 1) in before;
      ok := MoveAll(before, lastMoved);
      if !ok {
        Truncate();
        currentSize := 0;
        intact := false;
        return;
      }
      StartAfresh(before, lastMoved);
    }

    /** Reopening the base file when all others have moved. */
    method StartAfresh(ghost before: map<string, Content>, ghost lastMoved: bool)
      requires Tracked(disk.files, messages, maxSize)
      requires Moving(before, disk.files, baseFilename, maxFiles, 0, lastMoved)
      requires lastMoved <==> maxFiles >= 1 && CalcFilename(baseFilename, maxFiles - 1) in before
      requires intact ==> IsSuffix(History(before, baseFilename, maxFiles), logged)
      modifies this`messages, disk
      ensures Tracked(disk.files, messages, maxSize) && disk.attempts == old(disk.attempts)
      ensures disk.files == old(disk.files)[baseFilename := []] && messages == old(messages)[baseFilename := []]
      ensures RotatedInto(before, disk.files, baseFilename, maxFiles)
      ensures intact ==> IsSuffix(History(disk.files, baseFilename, maxFiles), logged)
    {
      Truncated(before, disk.files, baseFilename, maxFiles, lastMoved);
      if intact {
        RotatedHistory(before, disk.files[baseFilename := []], baseFilename, maxFiles, logged);
      }
      Truncate();
    }

    /** The loop itself, which stops at a renaming that has failed twice. */
    method MoveAll(ghost before: map<string, Content>, ghost lastMoved: bool) returns (ok: bool)
      requires Tracked(disk.files, messages, maxSize) && disk.files == before
      requires lastMoved <==> maxFiles >= 1 && CalcFilename(baseFilename, maxFiles - 1) in before
      modifies this`messages, disk
      ensures Tracked(disk.files, messages, maxSize)
      ensures old(disk.attempts) <= disk.attempts
      ensures ok <==> !FailedTwice(disk.attempts[|old(disk.attempts)|..])
      ensures ok ==> Moving(before, disk.files, baseFilename, maxFiles, 0, lastMoved)
      ensures !ok ==> exists i: nat :: StuckAt(before, disk.files, baseFilename, maxFiles, i)
    {
      hide Tracked, StuckAt, CalcFilename;
      ghost var start := disk.attempts;
      var i := maxFiles;
      while i > 0
        invariant 0 <= i <= maxFiles && Tracked(disk.files, messages, maxSize)
        invariant Moving(before, disk.files, baseFilename, maxFiles, i, lastMoved)
        invariant start <= disk.attempts && GoneWell(disk.attempts[|start|..])
      {
        ghost var now := disk.attempts;
        ok := MoveUp(before, i, lastMoved);
        NextAttempts(start, now, disk.attempts, CalcFilename(baseFilename, i - 1), CalcFilename(baseFilename, i), ok);
        if !ok {
          return;
        }
        i := i - 1;
      }
      ok := true;
    }

    /** One turn of the loop. */
    method MoveUp(ghost before: map<string, Content>, i: nat, ghost lastMoved: bool) returns (ok: bool)
      requires 1 <= i <= maxFiles && Tracked(disk.files, messages, maxSize)
      requires Moving(before, disk.files, baseFilename, maxFiles, i, lastMoved)
      requires lastMoved <==> CalcFilename(baseFilename, maxFiles - 1) in before
      modifies this`messages, disk
      ensures Tracked(disk.files, messages, maxSize)
      ensures ok ==> Moving(before, disk.files, baseFilename, maxFiles, i - 1, lastMoved)
      ensures old(disk.attempts) <= disk.attempts
      ensures if CalcFilename(baseFilename, i - 1) in old(disk.files)
              then Tried(disk.attempts[|old(disk.attempts)|..], CalcFilename(baseFilename, i - 1),
                         CalcFilename(baseFilename, i), ok)
              else ok && disk.attempts == old(disk.attempts)
      ensures !ok ==> StuckAt(before, disk.files, baseFilename, maxFiles, i)
    {
      var src := CalcFilename(baseFilename, i - 1);
      if src !in disk.files {
        MovedNothing(before, disk.files, baseFilename, maxFiles, i, lastMoved);
        return true;
      }
      var target := CalcFilename(baseFilename, i);
      if src == target {
        NamesAreDistinct(baseFilename, i - 1, i);
      }
      MovedOneMore(before, disk.files, baseFilename, maxFiles, i, lastMoved);
      RenamedOthers(before, disk.files, baseFilename, maxFiles, i);
      ok := disk.RenameTwice(src, target);
      if ok {
        messages := Renamed(messages, src, target);
      } else {
        messages := messages - {target};
      }
    }

    /** Reopening for writing empties the base file. */
    method Truncate()
      requires Tracked(disk.files, messages, maxSize)
      modifies this`messages, disk
      ensures Tracked(disk.files, messages, maxSize) && disk.files == old(disk.files)[baseFilename := []]
      ensures messages == old(messages)[baseFilename := []] && disk.attempts == old(disk.attempts)
    {
      disk.files := disk.files[baseFilename := []];
      messages := messages[baseFilename := []];
    }
  }

  lemma FlattenAppend(messages: seq<Content>, msg: Content)
    ensures Flatten(messages + [msg]) == Flatten(messages) + msg
  {
    assert (messages + [msg])[..|messages|] == messages;
  }

  lemma TrackedWrite(files: map<string, Content>, messages: map<string, seq<Content>>, maxSize: nat,
                     name: string, msg: Content)
    requires Tracked(files, messages, maxSize) && name in files
    requires |files[name]| + |msg| <= maxSize || (name in messages && messages[name] == [])
    ensures Tracked(files[name := files[name] + msg],
                    if name in messages then messages[name := messages[name] + [msg]] else messages,
                    maxSize)
  {
    if name in messages {
      FlattenAppend(messages[name], msg);
    }
  }

  lemma SuffixAppend(h: Content, logged: Content, msg: Content)
    requires IsSuffix(h, logged)
    ensures IsSuffix(h + msg, logged + msg)
  {
    assert logged + msg == logged[..|logged| - |h|] + (h + msg);
  }

  lemma SuffixWrite(files: map<string, Content>, name: string, max: nat, logged: Content, msg: Content)
    requires name in files && IsSuffix(History(files, name, max), logged)
    ensures IsSuffix(History(files[name := files[name] + msg], name, max), logged + msg)
  {
    AppendedHistory(files, name, max, msg);
    SuffixAppend(History(files, name, max), logged, msg);
  }

  lemma RenamedAfterRemoval<V>(m: map<string, V>, src: string, target: string)
    requires src != target
    ensures Renamed(m - {target}, src, target) == Renamed(m, src, target)
    ensures m - {target} - {target} == m - {target}
  {
  }

  lemma Truncated(before: map<string, Content>, after: map<string, Content>, name: string,
                  max: nat, lastMoved: bool)
    requires Moving(before, after, name, max, 0, lastMoved)
    requires lastMoved <==> max >= 1 && CalcFilename(name, max - 1) in before
    ensures RotatedInto(before, after[name := []], name, max)
  {
    EmptiedOthers(before, after, name, max);
    forall j | 1 <= j <= max
      ensures Get(after[name := []], CalcFilename(name, j)) == Get(after, CalcFilename(name, j))
    {
      if CalcFilename(name, j) == CalcFilename(name, 0) {
        NamesAreDistinct(name, j, 0);
      }
    }
  }

  lemma RotatedHistory(before: map<string, Content>, after: map<string, Content>, name: string,
                       max: nat, logged: Content)
    requires RotatedInto(before, after, name, max) && IsSuffix(History(before, name, max), logged)
    ensures IsSuffix(History(after, name, max), logged)
  {
    RotationKeepsHistory(before, after, name, max);
    SuffixOfHistory(before, name, max, logged);
  }
}
