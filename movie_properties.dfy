/** What the catalog's operations promise about the movie table and the poster
    directory together: which of the two changes on each path, and when a row
    can be left naming a file that is no longer on disk. */
module MovieProperties {
  import opened Common
  import opened Entities
  import opened FileService
  import opened Repository
  import opened MovieService

  /** A name already present in the poster directory is refused before
      anything is touched. */
  lemma AddMovieRefusesTakenName(c: Config, st: CatalogState, dto: MovieDto, file: MultipartFile)
    requires PathExists(st.fs, FilePath(c.posterPath, file.originalFilename))
    ensures AddMovieStep(c, st, dto, file) == (Failure(FileExists(FileExistsMessage)), st)
  {
  }

  /** A successful add appends exactly one row, with the next id, the client's
      fields and the uploaded name as poster; the directory gains exactly that
      file; the answer is the row's view, and looking the new id up finds it. */
  lemma AddMovieSuccess(c: Config, st: CatalogState, dto: MovieDto, file: MultipartFile)
    requires RepoInvariant(st.repo)
    requires AddMovieStep(c, st, dto, file).0.Success?
    ensures var (r, st') := AddMovieStep(c, st, dto, file);
            var name := file.originalFilename;
            var row := MovieFrom(Some(st.repo.nextId), dto, name);
            && !PathExists(st.fs, FilePath(c.posterPath, name))
            && st'.repo == RepoState(st.repo.rows + [row], st.repo.nextId + 1)
            && st'.fs.files == st.fs.files[FilePath(c.posterPath, name) := file.bytes]
            && c.posterPath in st'.fs.dirs
            && r.value == ToDto(row, c.baseUrl)
            && r.value.posterUrl == c.baseUrl + "/file/" + name
            && GetMovieView(c, st'.repo.rows, st.repo.nextId) == r
  {
    var name := file.originalFilename;
    var (up, fs1) := Upload(st.fs, c.posterPath, file);
    var movie := MovieFrom(None, dto, name);
    SaveThenFind(st.repo, movie, 0);
  }

  /** A failed add never changes the table. No file changes either, except
      when the row is refused after the upload: then the uploaded file stays
      behind with no row naming it. The poster directory may have been created
      on the way, and no other directory appears. */
  lemma AddMovieFailure(c: Config, st: CatalogState, dto: MovieDto, file: MultipartFile)
    requires AddMovieStep(c, st, dto, file).0.Failure?
    ensures var (r, st') := AddMovieStep(c, st, dto, file);
            var fp := FilePath(c.posterPath, file.originalFilename);
            && st'.repo == st.repo
            && st'.fs.dirs <= st.fs.dirs + {c.posterPath}
            && (r.error == FileExists(FileExistsMessage) <==> PathExists(st.fs, fp))
            && (st'.fs.files == st.fs.files ||
                (&& r.error == ConstraintViolation
                 && !SatisfiesConstraints(MovieFrom(None, dto, file.originalFilename))
                 && fp !in st.fs.files
                 && st'.fs.files == st.fs.files[fp := file.bytes]))
  {
    var fp := FilePath(c.posterPath, file.originalFilename);
    if !PathExists(st.fs, fp) {
      var (up, fs1) := Upload(st.fs, c.posterPath, file);
      if up.Success? {
        var (saved, repo1) := SaveRow(st.repo, MovieFrom(None, dto, up.value));
        assert saved.Failure?;
      }
    }
  }

  /** An empty file name can never be added: the target path is then the
      poster directory itself, which exists already or is created by the
      upload, so the add fails and the table and the files stay as they were. */
  lemma AddMovieEmptyNameFails(c: Config, st: CatalogState, dto: MovieDto, file: MultipartFile)
    requires file.originalFilename == []
    ensures var (r, st') := AddMovieStep(c, st, dto, file);
            && r.Failure?
            && (r.error == FileExists(FileExistsMessage) <==> PathExists(st.fs, c.posterPath))
            && st'.repo == st.repo
            && st'.fs.files == st.fs.files
  {
  }

  /** Every outcome of an add keeps the catalog consistent. */
  lemma AddMovieKeepsConsistent(c: Config, st: CatalogState, dto: MovieDto, file: MultipartFile)
    requires Consistent(c, st)
    ensures Consistent(c, AddMovieStep(c, st, dto, file).1)
  {
    var (r, st') := AddMovieStep(c, st, dto, file);
    var name := file.originalFilename;
    if r.Success? {
      AddMovieSuccess(c, st, dto, file);
      SaveKeepsInvariant(st.repo, MovieFrom(None, dto, name));
      var rows' := st'.repo.rows;
      var n := |st.repo.rows|;
      forall i, j | 0 <= i < j < |rows'| ensures rows'[i].poster != rows'[j].poster {
        if j == n {
          assert FilePath(c.posterPath, rows'[i].poster) in st.fs.files;
        }
      }
    } else {
      AddMovieFailure(c, st, dto, file);
    }
  }

  /** `getMovie` succeeds exactly for a stored id and then shows that row. */
  lemma GetMovieFindsStoredRow(c: Config, rows: seq<Movie>, i: int)
    requires DistinctIds(rows)
    requires 0 <= i < |rows| && rows[i].idMovie.Some?
    ensures GetMovieView(c, rows, rows[i].idMovie.value) == Success(ToDto(rows[i], c.baseUrl))
  {
    RowWithIdIsThe(rows, i);
  }

  /** An update without a file leaves the directory alone and keeps the id and
      the poster name; the client's fields replace the rest when they satisfy
      the constraints, and otherwise nothing changes. Every other id finds
      what it found before. */
  lemma UpdateWithoutFile(c: Config, st: CatalogState, id: int, dto: MovieDto, other: int)
    requires RepoInvariant(st.repo)
    requires RowWithId(st.repo.rows, id).Some?
    ensures var (r, st') := UpdateMovieStep(c, st, id, dto, None);
            var row := MovieFrom(Some(id), dto, RowWithId(st.repo.rows, id).value.poster);
            && st'.fs == st.fs
            && |st'.repo.rows| == |st.repo.rows| && st'.repo.nextId == st.repo.nextId
            && (r.Success? <==> SatisfiesConstraints(row))
            && (r.Success? ==> r.value == ToDto(row, c.baseUrl) && RowWithId(st'.repo.rows, id) == Some(row))
            && (r.Failure? ==> r.error == ConstraintViolation && st' == st)
            && (other != id ==> RowWithId(st'.repo.rows, other) == RowWithId(st.repo.rows, other))
  {
    var mv := RowWithId(st.repo.rows, id).value;
    var row := MovieFrom(mv.idMovie, dto, mv.poster);
    if SatisfiesConstraints(row) {
      SaveThenFind(st.repo, row, other);
    }
  }

  /** A successful update with a file: the old poster's file is gone unless
      the new one has the same name, the new file holds the uploaded content,
      the row keeps its id and now names the new file. Every other id finds
      what it found before. */
  lemma UpdateWithFileSuccess(c: Config, st: CatalogState, id: int, dto: MovieDto, f: MultipartFile, other: int)
    requires RepoInvariant(st.repo)
    requires UpdateMovieStep(c, st, id, dto, Some(f)).0.Success?
    ensures RowWithId(st.repo.rows, id).Some?
    ensures var (r, st') := UpdateMovieStep(c, st, id, dto, Some(f));
            var oldPath := FilePath(c.posterPath, RowWithId(st.repo.rows, id).value.poster);
            var newPath := FilePath(c.posterPath, f.originalFilename);
            var row := MovieFrom(Some(id), dto, f.originalFilename);
            && st'.fs.files == (st.fs.files - {oldPath})[newPath := f.bytes]
            && r.value == ToDto(row, c.baseUrl)
            && RowWithId(st'.repo.rows, id) == Some(row)
            && |st'.repo.rows| == |st.repo.rows|
            && (other != id ==> RowWithId(st'.repo.rows, other) == RowWithId(st.repo.rows, other))
  {
    var mv := RowWithId(st.repo.rows, id).value;
    var row := MovieFrom(mv.idMovie, dto, f.originalFilename);
    SaveThenFind(st.repo, row, other);
  }

  /** An id with no row is refused with `MovieNotFoundException` naming it,
      whatever file came, and neither the table nor the disk changes. */
  lemma UpdateMovieNotFound(c: Config, st: CatalogState, id: int, dto: MovieDto, file: Option<MultipartFile>)
    requires RowWithId(st.repo.rows, id).None?
    ensures UpdateMovieStep(c, st, id, dto, file) == (Failure(MovieNotFound(NotFoundMessage(id))), st)
  {
  }

  /** When the upload of the new poster fails, the old poster has already been
      deleted while the row still names it. */
  lemma UpdateUploadFailureLeavesDanglingRow(c: Config, st: CatalogState, id: int, dto: MovieDto, f: MultipartFile)
    requires RowWithId(st.repo.rows, id).Some?
    requires ReplacePoster(c, st.fs, RowWithId(st.repo.rows, id).value.poster, Some(f)).0.Failure?
    ensures var (r, st') := UpdateMovieStep(c, st, id, dto, Some(f));
            var mv := RowWithId(st.repo.rows, id).value;
            && r.Failure?
            && st'.repo == st.repo
            && mv in st'.repo.rows
            && FilePath(c.posterPath, mv.poster) !in st'.fs.files
            && !PostersResolve(c, st')
  {
    var mv := RowWithId(st.repo.rows, id).value;
    var st' := UpdateMovieStep(c, st, id, dto, Some(f)).1;
    var i :| 0 <= i < |st.repo.rows| && st.repo.rows[i] == mv;
    assert FilePath(c.posterPath, st'.repo.rows[i].poster) !in st'.fs.files;
  }

  /** When the new poster is uploaded but the row is then refused (a blank
      title, say), the old poster is already deleted, the new file stays with
      no row naming it, and the table is unchanged, so the row names a file
      that is gone unless the two names are the same. */
  lemma UpdateWithFileSaveRefused(c: Config, st: CatalogState, id: int, dto: MovieDto, f: MultipartFile)
    requires RepoInvariant(st.repo)
    requires RowWithId(st.repo.rows, id).Some?
    requires ReplacePoster(c, st.fs, RowWithId(st.repo.rows, id).value.poster, Some(f)).0.Success?
    requires !SatisfiesConstraints(MovieFrom(Some(id), dto, f.originalFilename))
    ensures var (r, st') := UpdateMovieStep(c, st, id, dto, Some(f));
            var mv := RowWithId(st.repo.rows, id).value;
            && r == Failure(ConstraintViolation)
            && st'.repo == st.repo
            && st'.fs.files == (st.fs.files - {FilePath(c.posterPath, mv.poster)})[FilePath(c.posterPath, f.originalFilename) := f.bytes]
            && (f.originalFilename != mv.poster ==> !PostersResolve(c, st'))
  {
    var mv := RowWithId(st.repo.rows, id).value;
    var st' := UpdateMovieStep(c, st, id, dto, Some(f)).1;
    var oldPath := FilePath(c.posterPath, mv.poster);
    var newPath := FilePath(c.posterPath, f.originalFilename);
    if f.originalFilename != mv.poster {
      if oldPath == newPath {
        FilePathInjective(c.posterPath, mv.poster, f.originalFilename);
      }
      var i :| 0 <= i < |st.repo.rows| && st.repo.rows[i] == mv;
      assert FilePath(c.posterPath, st'.repo.rows[i].poster) !in st'.fs.files;
    }
  }

  /** That failure happens in a consistent catalog: updating a movie with a
      file named like another movie's poster deletes the movie's own poster,
      then the upload is refused because the name is taken. */
  lemma UpdateOntoTakenNameLosesPoster(c: Config, st: CatalogState, id: int, dto: MovieDto, f: MultipartFile)
    requires Consistent(c, st)
    requires c.posterPath in st.fs.dirs
    requires RowWithId(st.repo.rows, id).Some?
    requires f.originalFilename != RowWithId(st.repo.rows, id).value.poster
    requires FilePath(c.posterPath, f.originalFilename) in st.fs.files
    ensures var (r, st') := UpdateMovieStep(c, st, id, dto, Some(f));
            && r == Failure(FileAlreadyExists(FilePath(c.posterPath, f.originalFilename)))
            && !Consistent(c, st')
  {
    var mv := RowWithId(st.repo.rows, id).value;
    var oldPath := FilePath(c.posterPath, mv.poster);
    var newPath := FilePath(c.posterPath, f.originalFilename);
    if oldPath == newPath {
      FilePathInjective(c.posterPath, mv.poster, f.originalFilename);
    }
    var fs1 := WithoutFile(st.fs, oldPath);
    assert newPath in fs1.files;
    assert ReplacePoster(c, st.fs, mv.poster, Some(f)).0.Failure?;
    UpdateUploadFailureLeavesDanglingRow(c, st, id, dto, f);
  }

  /** A successful update keeps the catalog consistent. */
  lemma UpdateSuccessKeepsConsistent(c: Config, st: CatalogState, id: int, dto: MovieDto, file: Option<MultipartFile>)
    requires Consistent(c, st)
    requires UpdateMovieStep(c, st, id, dto, file).0.Success?
    ensures Consistent(c, UpdateMovieStep(c, st, id, dto, file).1)
  {
    var st' := UpdateMovieStep(c, st, id, dto, file).1;
    var k := IndexOfId(st.repo.rows, id);
    var mv := st.repo.rows[k];
    var fileName := ReplacePoster(c, st.fs, mv.poster, file).0.value;
    var row := MovieFrom(mv.idMovie, dto, fileName);
    SaveKeepsInvariant(st.repo, row);
    assert st'.repo.rows == st.repo.rows[k := row];
    var newPath := FilePath(c.posterPath, fileName);
    assert newPath in st'.fs.files;
    forall i | 0 <= i < |st.repo.rows| && i != k
      ensures FilePath(c.posterPath, st.repo.rows[i].poster) in st'.fs.files
      ensures st.repo.rows[i].poster != fileName
    {
      var p := FilePath(c.posterPath, st.repo.rows[i].poster);
      if p == FilePath(c.posterPath, mv.poster) {
        FilePathInjective(c.posterPath, st.repo.rows[i].poster, mv.poster);
        assert false;
      }
      if file.Some? {
        assert p in WithoutFile(st.fs, FilePath(c.posterPath, mv.poster)).files;
      }
    }
  }

  /** Deleting an absent id fails and changes nothing. Deleting a stored id
      removes its poster file and its row and nothing else, and answers with
      the id that was deleted; the id is not found afterwards. */
  lemma DeleteMovieOutcome(c: Config, st: CatalogState, id: int, other: int)
    requires RepoInvariant(st.repo)
    ensures var (r, st') := DeleteMovieStep(c, st, id);
            && (r.Failure? <==> RowWithId(st.repo.rows, id).None?)
            && (r.Failure? ==> r.error == MovieNotFound(NotFoundMessage(id)) && st' == st)
            && (r.Success? ==>
                  var oldPath := FilePath(c.posterPath, RowWithId(st.repo.rows, id).value.poster);
                  && r.value == DeleteConfirmation(id)
                  && st'.fs.files == st.fs.files - {oldPath}
                  && st'.fs.dirs == st.fs.dirs
                  && |st'.repo.rows| == |st.repo.rows| - 1
                  && GetMovieView(c, st'.repo.rows, id) == Failure(MovieNotFound(NotFoundMessage(id)))
                  && (other != id ==> RowWithId(st'.repo.rows, other) == RowWithId(st.repo.rows, other)))
  {
    var found := RowWithId(st.repo.rows, id);
    if found.Some? {
      DeleteThenFind(st.repo, found.value, other);
    }
  }

  /** A delete keeps the catalog consistent. */
  lemma DeleteMovieKeepsConsistent(c: Config, st: CatalogState, id: int)
    requires Consistent(c, st)
    ensures Consistent(c, DeleteMovieStep(c, st, id).1)
  {
    var st' := DeleteMovieStep(c, st, id).1;
    var found := RowWithId(st.repo.rows, id);
    if found.Some? {
      var mv := found.value;
      DeleteKeepsInvariant(st.repo, mv);
      var k := IndexOfId(st.repo.rows, id);
      var rows := st.repo.rows;
      assert st'.repo.rows == rows[..k] + rows[k + 1..];
      forall i | 0 <= i < |st'.repo.rows|
        ensures FilePath(c.posterPath, st'.repo.rows[i].poster) in st'.fs.files
      {
        var j := if i < k then i else i + 1;
        assert st'.repo.rows[i] == rows[j] && j != k;
        if FilePath(c.posterPath, rows[j].poster) == FilePath(c.posterPath, mv.poster) {
          FilePathInjective(c.posterPath, rows[j].poster, mv.poster);
        }
      }
      forall i, i' | 0 <= i < i' < |st'.repo.rows|
        ensures st'.repo.rows[i].poster != st'.repo.rows[i'].poster
      {
        var j := if i < k then i else i + 1;
        var j' := if i' < k then i' else i' + 1;
        assert st'.repo.rows[i] == rows[j] && st'.repo.rows[i'] == rows[j'] && j < j';
      }
    }
  }

  /** The delete confirmation ends with the deleted id, which reads back exactly. */
  lemma DeleteConfirmationNamesId(id: int)
    ensures var prefix := "Đã xóa phim có id = ";
            var msg := DeleteConfirmation(id);
            var digits := msg[|prefix|..];
            && msg[..|prefix|] == prefix
            && |digits| > 0
            && (digits[0] == '-' ==> AllDigits(digits[1..]))
            && (digits[0] != '-' ==> AllDigits(digits))
            && ParseInt(digits) == id
  {
    var prefix := "Đã xóa phim có id = ";
    assert DeleteConfirmation(id)[|prefix|..] == IntToString(id);
    IntToStringRoundTrip(id);
  }
}
