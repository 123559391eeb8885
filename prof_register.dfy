/** POST /api/professor/face-registration/register: stores a professor's
    512-dimension face descriptor and saves the captured image under the next
    free number of the professor's file name. */
module ProfRegister {
  import opened Common

  const DescriptorLength: nat := 512
  const ImageDir: string := "/face-registrations/"
  const NoRowsCode: string := "PGRST116"

  /** A row of `professor_face_registrations`. */
  datatype ProfessorRegistration = ProfessorRegistration(
    professorId: string, firstName: string, lastName: string, faceData: string,
    faceDescriptor: seq<real>, imageUrl: string, isActive: bool)

  datatype Request = Request(
    professorId: Option<string>, firstName: Option<string>, lastName: Option<string>,
    faceData: Option<string>, faceDescriptor: Option<Descriptor>)

  datatype Response =
    | MissingFields                                             // 400
    | InvalidDescriptor                                         // 400
    | ConfigError                                               // 500
    | UpdateFailed                                              // 500
    | InsertFailed                                              // 500
    | Updated(registration: ProfessorRegistration)
    | Created(registration: ProfessorRegistration)

  predicate HasFields(q: Request)
  {
    Truthy(q.professorId) && Truthy(q.firstName) && Truthy(q.lastName) && Truthy(q.faceData)
  }

  /** An array of exactly 512 numbers; an object is not an array. */
  predicate ValidDescriptor(d: Option<Descriptor>)
  {
    d.Some? && d.value.ArrayDescriptor? && |d.value.items| == DescriptorLength
  }

  // ------------------------------------------------------------ file numbering

  /** `first.last.prof`, lower-cased. */
  function BaseFileName(firstName: string, lastName: string): (b: string)
    ensures EndsWith(b, ".prof")
  {
    Lower(firstName) + "." + Lower(lastName) + ".prof"
  }

  /** The length of the image extension the file name ends with (`.jpg`,
      `.jpeg` or `.png` in any case), dot not included. */
  function ImageExtension(f: string): (n: Option<nat>)
    ensures n.Some? ==> n.value < |f| && f[|f| - n.value - 1] == '.'
  {
    if 4 <= |f| && f[|f| - 4] == '.' && Lower(f[|f| - 3..]) in ["jpg", "png"] then Some(3)
    else if 5 <= |f| && f[|f| - 5] == '.' && Lower(f[|f| - 4..]) == "jpeg" then Some(4)
    else None
  }

  /** `/(\d{3})\.(jpg|jpeg|png)$/i` read as the route does: the three digits
      before the extension, or 0 when the pattern does not match. */
  function FileNumberAsWritten(f: string): (n: nat)
    ensures n < 1000
    ensures ImageExtension(f).None? ==> n == 0
    ensures ImageExtension(f).Some? && |f| - ImageExtension(f).value - 1 < 3 ==> n == 0
  {
    match ImageExtension(f)
    case None => 0
    case Some(e) =>
      var k := |f| - e - 1;
      if k >= 3 && AllDigits(f[k - 3..k]) then
        ThreeDigitsBelowThousand(f[k - 3..k]);
        ParseDigits(f[k - 3..k])
      else 0
  }

  lemma ThreeDigitsBelowThousand(s: string)
    requires |s| == 3 && AllDigits(s)
    ensures ParseDigits(s) < 1000
  {
    DigitsBelowPower(s);
  }

  function Pow10(k: nat): (p: nat)
    ensures p >= 1
  {
    if k == 0 then 1 else 10 * Pow10(k - 1)
  }

  lemma {:induction false} DigitsBelowPower(s: string)
    requires AllDigits(s)
    ensures ParseDigits(s) < Pow10(|s|)
  {
    if s != [] {
      DigitsBelowPower(s[..|s| - 1]);
    }
  }

  /** The number of digits at the end of `s`. */
  function TrailingDigitCount(s: string): (k: nat)
    ensures k <= |s|
    ensures forall i :: |s| - k <= i < |s| ==> IsDigit(s[i])
    ensures k < |s| ==> !IsDigit(s[|s| - k - 1])
  {
    if s == [] || !IsDigit(s[|s| - 1]) then 0
    else
      var p := s[..|s| - 1];
      assert forall i :: 0 <= i < |p| ==> p[i] == s[i];
      TrailingDigitCount(p) + 1
  }

  /** The number as `/(\d{3,})\.(jpg|jpeg|png)$/i` reads it: every digit
      before the extension, provided there are at least three. */
  function FileNumber(f: string): (n: nat)
    ensures ImageExtension(f).None? ==> n == 0
  {
    match ImageExtension(f)
    case None => 0
    case Some(e) =>
      var stem := f[..|f| - e - 1];
      var k := TrailingDigitCount(stem);
      var d := stem[|stem| - k..];
      assert forall i :: 0 <= i < |d| ==> d[i] == stem[|stem| - k + i];
      if k >= 3 then ParseDigits(d) else 0
  }

  function UserFiles(files: seq<string>, base: string): (r: seq<string>)
    ensures forall f :: f in r <==> f in files && StartsWith(f, base)
  {
    Filter(files, (f: string) => StartsWith(f, base))
  }

  function MaxOf(xs: seq<nat>): (m: nat)
    requires xs != []
    ensures m in xs && forall x :: x in xs ==> x <= m
  {
    if |xs| == 1 then xs[0]
    else
      var m := MaxOf(xs[..|xs| - 1]);
      assert forall x :: x in xs ==> x in xs[..|xs| - 1] || x == xs[|xs| - 1];
      if m < xs[|xs| - 1] then xs[|xs| - 1] else m
  }

  /** 1 with no file of the professor, else one more than the largest
      number read from them (`Math.max(...numbers) + 1`). */
  function NextNumberAsWritten(files: seq<string>, base: string): (n: nat)
    ensures n >= 1
    ensures forall f :: f in files && StartsWith(f, base) ==> FileNumberAsWritten(f) < n
    ensures UserFiles(files, base) == [] ==> n == 1
    ensures UserFiles(files, base) != [] ==> exists f :: f in files && StartsWith(f, base) && n == FileNumberAsWritten(f) + 1
  {
    var mine := UserFiles(files, base);
    if mine == [] then 1
    else
      var numbers := seq(|mine|, i requires 0 <= i < |mine| => FileNumberAsWritten(mine[i]));
      assert forall f :: f in mine ==> FileNumberAsWritten(f) in numbers by {
        forall f | f in mine
          ensures FileNumberAsWritten(f) in numbers
        {
          var i :| 0 <= i < |mine| && mine[i] == f;
          assert numbers[i] == FileNumberAsWritten(f);
        }
      }
      var m := MaxOf(numbers);
      var i :| 0 <= i < |numbers| && numbers[i] == m;
      assert mine[i] in mine && StartsWith(mine[i], base) && m == FileNumberAsWritten(mine[i]);
      m + 1
  }

  function NextNumber(files: seq<string>, base: string): (n: nat)
    ensures n >= 1
    ensures forall f :: f in files && StartsWith(f, base) ==> FileNumber(f) < n
    ensures UserFiles(files, base) == [] ==> n == 1
    ensures UserFiles(files, base) != [] ==> exists f :: f in files && StartsWith(f, base) && n == FileNumber(f) + 1
  {
    var mine := UserFiles(files, base);
    if mine == [] then 1
    else
      var numbers := seq(|mine|, i requires 0 <= i < |mine| => FileNumber(mine[i]));
      assert forall f :: f in mine ==> FileNumber(f) in numbers by {
        forall f | f in mine
          ensures FileNumber(f) in numbers
        {
          var i :| 0 <= i < |mine| && mine[i] == f;
          assert numbers[i] == FileNumber(f);
        }
      }
      var m := MaxOf(numbers);
      var i :| 0 <= i < |numbers| && numbers[i] == m;
      assert mine[i] in mine && StartsWith(mine[i], base) && m == FileNumber(mine[i]);
      m + 1
  }

  /** `${base}${String(n).padStart(3, '0')}.jpg` */
  function FileName(base: string, n: nat): (f: string)
    ensures StartsWith(f, base) && EndsWith(f, ".jpg") && |f| >= |base| + 7
  {
    base + PadStart(NatToString(n), 3, '0') + ".jpg"
  }

  lemma JpgExtension(base: string, p: string)
    ensures ImageExtension(base + p + ".jpg") == Some(3)
    ensures (base + p + ".jpg")[..|base + p + ".jpg"| - 4] == base + p
  {
    var f := base + p + ".jpg";
    assert f[|f| - 4] == '.';
    assert f[|f| - 3..] == "jpg";
    assert Lower("jpg") == "jpg";
  }

  lemma {:induction false} TrailingDigitsAfter(base: string, p: string)
    requires base != [] && !IsDigit(base[|base| - 1]) && AllDigits(p)
    ensures TrailingDigitCount(base + p) == |p|
  {
    if p == [] {
      assert base + p == base;
    } else {
      var p' := p[..|p| - 1];
      assert (base + p)[..|base + p| - 1] == base + p';
      TrailingDigitsAfter(base, p');
    }
  }

  /** The corrected reading gives back the number a file was named with. */
  lemma FileNumberOfFileName(base: string, n: nat)
    requires EndsWith(base, ".prof")
    ensures FileNumber(FileName(base, n)) == n
  {
    var p := PadStart(NatToString(n), 3, '0');
    ParsePadded(n, 3);
    JpgExtension(base, p);
    assert base[|base| - 1] == "f"[0] by { assert base[|base| - 5..][4] == base[|base| - 1]; }
    TrailingDigitsAfter(base, p);
    assert FileName(base, n) == base + p + ".jpg";
    assert (base + p)[|base + p| - |p|..] == p;
  }

  /** The route reads the last three digits before `.jpg`. */
  lemma ReadsLastThree(base: string, p: string)
    requires |p| >= 3 && AllDigits(p)
    ensures FileNumberAsWritten(base + p + ".jpg") == ParseDigits(p[|p| - 3..])
  {
    var f := base + p + ".jpg";
    JpgExtension(base, p);
    var k := |f| - 4;
    assert f[k - 3..k] == p[|p| - 3..];
  }

  /** The route's reading gives it back only below 1000. */
  lemma FileNumberAsWrittenOfFileName(base: string, n: nat)
    requires n < 1000
    ensures FileNumberAsWritten(FileName(base, n)) == n
  {
    var p := PadStart(NatToString(n), 3, '0');
    ParsePadded(n, 3);
    NatToStringLength(n);
    ReadsLastThree(base, p);
    assert p[|p| - 3..] == p;
  }

  /** With the corrected reading the new file never replaces an existing one. */
  lemma NextFileIsNew(files: seq<string>, base: string)
    requires EndsWith(base, ".prof")
    ensures FileName(base, NextNumber(files, base)) !in files
  {
    var n := NextNumber(files, base);
    FileNumberOfFileName(base, n);
    assert StartsWith(FileName(base, n), base);
  }

  /** The route's numbering gives a new file as long as the next number is below 1000. */
  lemma NextFileIsNewBelowThousand(files: seq<string>, base: string)
    requires NextNumberAsWritten(files, base) < 1000
    ensures FileName(base, NextNumberAsWritten(files, base)) !in files
  {
    var n := NextNumberAsWritten(files, base);
    FileNumberAsWrittenOfFileName(base, n);
    assert StartsWith(FileName(base, n), base);
  }

  lemma ThousandRendering()
    ensures PadStart(NatToString(1000), 3, '0') == "1000"
  {
    assert NatToString(1) == "1";
    assert NatToString(10) == "10";
    assert NatToString(100) == "100";
  }

  /** The route reads image 1000 as number 0. */
  lemma ThousandReadsAsZero(base: string)
    ensures FileNumberAsWritten(FileName(base, 1000)) == 0
  {
    ThousandRendering();
    var p := "1000";
    ReadsLastThree(base, p);
    assert p[1..] == seq(3, _ => '0');
    ZerosParseToZero(3);
  }

  /** Once image 1000 exists, the route reads it as 0 and picks 1000 again,
      overwriting that image. */
  lemma ThousandthImageOverwritten(base: string)
    ensures var files := [FileName(base, 999), FileName(base, 1000)];
            NextNumberAsWritten(files, base) == 1000 && FileName(base, 1000) in files
  {
    var files := [FileName(base, 999), FileName(base, 1000)];
    FileNumberAsWrittenOfFileName(base, 999);
    ThousandReadsAsZero(base);
    assert StartsWith(files[0], base) && StartsWith(files[1], base);
    BothUserFiles(files, base);
  }

  /** Two files that both start with the prefix are both listed. */
  lemma BothUserFiles(files: seq<string>, base: string)
    requires |files| == 2 && StartsWith(files[0], base) && StartsWith(files[1], base)
    ensures UserFiles(files, base) == files
  {
    assert files[..1][..0] == [];
    assert files[..1] == [files[0]];
  }

  // ------------------------------------------------------------ the route

  /** The image path: empty when the data URL has no comma (reading the part
      after it throws) or the write fails. */
  function ImageUrl(faceData: string, fileName: string, saveFails: bool): (u: string)
    ensures u != "" <==> ',' in faceData && !saveFails
  {
    if ',' in faceData && !saveFails then ImageDir + fileName else ""
  }

  function NewRegistration(q: Request, imageUrl: string): ProfessorRegistration
    requires HasFields(q) && ValidDescriptor(q.faceDescriptor)
  {
    ProfessorRegistration(q.professorId.value, q.firstName.value, q.lastName.value, q.faceData.value,
                          q.faceDescriptor.value.items, imageUrl, true)
  }

  /** `.update(...).eq('professor_id', id)`: the new values on the rows of that professor. */
  function UpdateRows(rows: seq<ProfessorRegistration>, reg: ProfessorRegistration): (r: seq<ProfessorRegistration>)
    ensures |r| == |rows|
    ensures forall i :: 0 <= i < |r| ==> r[i] == if rows[i].professorId == reg.professorId then reg else rows[i]
  {
    seq(|rows|, i requires 0 <= i < |rows| => if rows[i].professorId == reg.professorId then reg else rows[i])
  }

  function Existing(rows: seq<ProfessorRegistration>, professorId: string): Option<ProfessorRegistration>
  {
    Single(Filter(rows, (g: ProfessorRegistration) => g.professorId == professorId))
  }

  /** What the route sees as `existing`: a check query failing with anything
      but PGRST116 is only logged and leaves `existing` null. */
  function Checked(rows: seq<ProfessorRegistration>, professorId: string, checkFails: bool): (e: Option<ProfessorRegistration>)
    ensures checkFails ==> e.None?
    ensures !checkFails ==> e == Existing(rows, professorId)
  {
    if checkFails then None else Existing(rows, professorId)
  }

  /** The registration table after a call. */
  function RegistrationsAfter(rows: seq<ProfessorRegistration>, q: Request, imageUrl: string,
                              configured: bool, checkFails: bool, dbFails: bool): (r: seq<ProfessorRegistration>)
    ensures !HasFields(q) || !ValidDescriptor(q.faceDescriptor) || !configured || dbFails ==> r == rows
    ensures HasFields(q) && ValidDescriptor(q.faceDescriptor) && configured && !dbFails ==>
              NewRegistration(q, imageUrl) in r &&
              |r| == |rows| + (if Checked(rows, q.professorId.value, checkFails).Some? then 0 else 1) &&
              forall g :: g in rows && g.professorId != q.professorId.value ==> g in r
    ensures HasFields(q) && ValidDescriptor(q.faceDescriptor) && configured && !dbFails && checkFails ==>
              r == rows + [NewRegistration(q, imageUrl)]
  {
    if !HasFields(q) || !ValidDescriptor(q.faceDescriptor) || !configured || dbFails then rows
    else if Checked(rows, q.professorId.value, checkFails).Some? then UpdateRows(rows, NewRegistration(q, imageUrl))
    else rows + [NewRegistration(q, imageUrl)]
  }

  predicate OnePerProfessor(rows: seq<ProfessorRegistration>)
  {
    forall i, j :: 0 <= i < j < |rows| ==> rows[i].professorId != rows[j].professorId
  }

  lemma {:induction false} SingleOfUnique(rows: seq<ProfessorRegistration>, professorId: string)
    requires OnePerProfessor(rows)
    ensures |Filter(rows, (g: ProfessorRegistration) => g.professorId == professorId)| <= 1
  {
    if rows != [] {
      var p := rows[..|rows| - 1];
      assert OnePerProfessor(p) by {
        forall i, j | 0 <= i < j < |p|
          ensures p[i].professorId != p[j].professorId
        {
          assert p[i] == rows[i] && p[j] == rows[j];
        }
      }
      SingleOfUnique(p, professorId);
      var keep := (g: ProfessorRegistration) => g.professorId == professorId;
      if keep(rows[|rows| - 1]) {
        forall x | x in p
          ensures !keep(x)
        {
          var k :| 0 <= k < |p| && p[k] == x;
          assert rows[k] == x;
        }
        FilterNone(p, keep);
      }
    }
  }

  /** When the existence check answers, a successful call leaves exactly one
      registration of the professor, active and holding the new descriptor,
      and keeps one per professor. */
  lemma RegistrationIsUnique(rows: seq<ProfessorRegistration>, q: Request, imageUrl: string, dbFails: bool)
    requires OnePerProfessor(rows)
    ensures OnePerProfessor(RegistrationsAfter(rows, q, imageUrl, true, false, dbFails))
    ensures HasFields(q) && ValidDescriptor(q.faceDescriptor) && !dbFails ==>
              var after := RegistrationsAfter(rows, q, imageUrl, true, false, dbFails);
              NewRegistration(q, imageUrl) in after &&
              forall g :: g in after && g.professorId == q.professorId.value ==> g == NewRegistration(q, imageUrl)
  {
    if HasFields(q) && ValidDescriptor(q.faceDescriptor) && !dbFails {
      var pid := q.professorId.value;
      var reg := NewRegistration(q, imageUrl);
      var keep := (g: ProfessorRegistration) => g.professorId == pid;
      var after := RegistrationsAfter(rows, q, imageUrl, true, false, dbFails);
      if Existing(rows, pid).Some? {
        var x := Existing(rows, pid).value;
        var i :| 0 <= i < |rows| && rows[i] == x;
        assert after[i] == reg;
        forall k | 0 <= k < |after|
          ensures after[k].professorId == rows[k].professorId
        {
        }
      } else {
        SingleOfUnique(rows, pid);
        FilterNoneUnique(rows, pid);
        assert after[|rows|] == reg;
        forall k | 0 <= k < |rows|
          ensures rows[k].professorId != pid
        {
          assert rows[k] in rows;
        }
      }
    }
  }

  lemma FilterNoneUnique(rows: seq<ProfessorRegistration>, professorId: string)
    requires |Filter(rows, (g: ProfessorRegistration) => g.professorId == professorId)| <= 1
    requires Existing(rows, professorId).None?
    ensures forall g :: g in rows ==> g.professorId != professorId
  {
    var m := Filter(rows, (g: ProfessorRegistration) => g.professorId == professorId);
    assert |m| == 0;
  }

  /** A failed existence check makes the route insert even when the professor
      already has a row, so the table then holds two rows for the professor. */
  lemma FailedCheckDuplicates(rows: seq<ProfessorRegistration>, q: Request, imageUrl: string, i: int)
    requires HasFields(q) && ValidDescriptor(q.faceDescriptor)
    requires 0 <= i < |rows| && rows[i].professorId == q.professorId.value
    ensures var after := RegistrationsAfter(rows, q, imageUrl, true, true, false);
            |after| == |rows| + 1 && after[i].professorId == after[|rows|].professorId &&
            !OnePerProfessor(after)
  {
    var after := RegistrationsAfter(rows, q, imageUrl, true, true, false);
    assert after[i] == rows[i];
    assert after[|rows|] == NewRegistration(q, imageUrl);
  }

  /** The image directory and the registration table. */
  class RegistrationStore {
    var files: seq<string>
    var registrations: seq<ProfessorRegistration>

    constructor (files: seq<string>, registrations: seq<ProfessorRegistration>)
      ensures this.files == files && this.registrations == registrations
    {
      this.files := files;
      this.registrations := registrations;
    }

    /** `POST`. The image is written before the configuration check, so a
        configuration error still leaves the new file behind. The file name
        comes from the route's own numbering; writing to a name that already
        exists replaces that image, so the listing does not grow. A failed
        existence check (`checkFails`) is only logged, so the row is inserted. */
    method Register(q: Request, configured: bool, saveFails: bool, checkFails: bool, dbFails: bool) returns (r: Response)
      modifies this
      ensures !HasFields(q) ==> r == MissingFields
      ensures HasFields(q) && !ValidDescriptor(q.faceDescriptor) ==> r == InvalidDescriptor
      ensures HasFields(q) && ValidDescriptor(q.faceDescriptor) ==>
                var base := BaseFileName(q.firstName.value, q.lastName.value);
                var name := FileName(base, NextNumberAsWritten(old(files), base));
                var url := ImageUrl(q.faceData.value, name, saveFails);
                files == (if url != "" && name !in old(files) then old(files) + [name] else old(files)) &&
                registrations == RegistrationsAfter(old(registrations), q, url, configured, checkFails, dbFails) &&
                (!configured ==> r == ConfigError) &&
                (configured && dbFails ==>
                  r == if Checked(old(registrations), q.professorId.value, checkFails).Some? then UpdateFailed else InsertFailed) &&
                (configured && !dbFails ==>
                  r == if Checked(old(registrations), q.professorId.value, checkFails).Some? then Updated(NewRegistration(q, url))
                       else Created(NewRegistration(q, url)))
      ensures !HasFields(q) || !ValidDescriptor(q.faceDescriptor) ==> files == old(files) && registrations == old(registrations)
    {
      if !HasFields(q) {
        return MissingFields;
      }
      if !ValidDescriptor(q.faceDescriptor) {
        return InvalidDescriptor;
      }
      var base := BaseFileName(q.firstName.value, q.lastName.value);
      var fileName := FileName(base, NextNumberAsWritten(files, base));
      var imageUrl := ImageUrl(q.faceData.value, fileName, saveFails);
      if imageUrl != "" && fileName !in files {
        files := files + [fileName];
      }
      if !configured {
        return ConfigError;
      }
      var reg := NewRegistration(q, imageUrl);
      if Checked(registrations, q.professorId.value, checkFails).Some? {
        if dbFails {
          return UpdateFailed;
        }
        registrations := UpdateRows(registrations, reg);
        return Updated(reg);
      }
      if dbFails {
        return InsertFailed;
      }
      registrations := registrations + [reg];
      return Created(reg);
    }
  }
}
