/** `MovieServiceImpl`: the movie catalog and its poster files. Each operation
    is first given as a function from the table and the disk before the call
    to the result and the table and disk after it, step by step in the order
    the code takes them; the class below runs the same steps on the live
    objects and is proved to agree with those functions. */
module MovieService {
  import opened Common
  import opened Entities
  import opened FileService
  import opened Repository

  /** `MovieDto`, the outward view of a movie: the row's fields plus the URL
      its poster is served under. */
  datatype MovieDto = MovieDto(
    idMovie: Option<int>,
    title: string,
    director: string,
    studio: string,
    movieCast: set<string>,
    releaseYear: Option<int>,
    poster: string,
    posterUrl: string)

  /** `MoviePageResponse`. */
  datatype MoviePageResponse = MoviePageResponse(
    movieDtos: seq<MovieDto>,
    pageNumber: int,
    pageSize: int,
    totalElements: int,
    totalPages: int,
    isLast: bool)

  /** The configured poster directory (`project.poster`) and public base URL (`base.url`). */
  datatype Config = Config(posterPath: Path, baseUrl: string)

  /** Everything the catalog's operations read and write: the movie table and the disk. */
  datatype CatalogState = CatalogState(repo: RepoState, fs: FsState)

  const PosterSegment: string := "/file/"
  const FileExistsMessage: string := "File đã tồn tại, hãy chọn file khác !!!"

  function NotFoundMessage(id: int): string {
    "Không tìm thấy phim có id = " + IntToString(id)
  }

  function DeleteConfirmation(id: int): string {
    "Đã xóa phim có id = " + IntToString(id)
  }

  /** `baseUrl + "/file/" + poster`: the base URL, the fixed segment, then the
      file name, which can be read back off the end. */
  function PosterUrl(baseUrl: string, poster: string): (url: string)
    ensures |url| == |baseUrl| + |PosterSegment| + |poster|
    ensures url[..|baseUrl|] == baseUrl
    ensures url[|baseUrl|..|baseUrl| + |PosterSegment|] == PosterSegment
    ensures url[|baseUrl| + |PosterSegment|..] == poster
  {
    baseUrl + PosterSegment + poster
  }

  /** The row a view shows, without the derived URL. */
  function RowOf(dto: MovieDto): Movie {
    Movie(dto.idMovie, dto.title, dto.director, dto.studio, dto.movieCast, dto.releaseYear, dto.poster)
  }

  /** A row as the service hands it out: the row itself plus its poster URL. */
  function ToDto(m: Movie, baseUrl: string): (dto: MovieDto)
    ensures RowOf(dto) == m
    ensures dto.posterUrl == PosterUrl(baseUrl, m.poster)
  {
    MovieDto(m.idMovie, m.title, m.director, m.studio, m.movieCast, m.releaseYear, m.poster,
             PosterUrl(baseUrl, m.poster))
  }

  /** `new Movie(id, dto.getTitle(), ..., poster)`: the client's fields with
      the given id and poster name. */
  function MovieFrom(id: Option<int>, dto: MovieDto, poster: string): Movie {
    Movie(id, dto.title, dto.director, dto.studio, dto.movieCast, dto.releaseYear, poster)
  }

  // ---------------------------------------------------------------------------
  // The operations as functions of the state before the call

  /** `addMovie`: refuse a poster name already taken, upload, then insert the row. */
  function AddMovieStep(c: Config, st: CatalogState, dto: MovieDto, file: MultipartFile)
    : (Result<MovieDto, Error>, CatalogState)
  {
    if PathExists(st.fs, FilePath(c.posterPath, file.originalFilename)) then
      (Failure(FileExists(FileExistsMessage)), st)
    else
      var (uploaded, fs1) := Upload(st.fs, c.posterPath, file);
      match uploaded
      case Failure(e) => (Failure(e), CatalogState(st.repo, fs1))
      case Success(uploadedFilename) =>
        var (saved, repo1) := SaveRow(st.repo, MovieFrom(None, dto, uploadedFilename));
        match saved
        case Failure(e) => (Failure(e), CatalogState(repo1, fs1))
        case Success(m) => (Success(ToDto(m, c.baseUrl)), CatalogState(repo1, fs1))
  }

  /** `getMovie`. */
  function GetMovieView(c: Config, rows: seq<Movie>, id: int): Result<MovieDto, Error> {
    match RowWithId(rows, id)
    case None => Failure(MovieNotFound(NotFoundMessage(id)))
    case Some(m) => Success(ToDto(m, c.baseUrl))
  }

  /** The poster step of `updateMovie`: no file keeps the current name and the
      disk as it is; a file first deletes the current poster, then uploads. */
  function ReplacePoster(c: Config, fs: FsState, current: string, file: Option<MultipartFile>)
    : (Result<string, Error>, FsState)
  {
    match file
    case None => (Success(current), fs)
    case Some(f) => Upload(WithoutFile(fs, FilePath(c.posterPath, current)), c.posterPath, f)
  }

  /** `updateMovie`: find the row, replace the poster if a file came, then
      overwrite the row under the same id. */
  function UpdateMovieStep(c: Config, st: CatalogState, id: int, dto: MovieDto, file: Option<MultipartFile>)
    : (Result<MovieDto, Error>, CatalogState)
  {
    match RowWithId(st.repo.rows, id)
    case None => (Failure(MovieNotFound(NotFoundMessage(id))), st)
    case Some(mv) =>
      var (poster, fs1) := ReplacePoster(c, st.fs, mv.poster, file);
      match poster
      case Failure(e) => (Failure(e), CatalogState(st.repo, fs1))
      case Success(fileName) =>
        var movie := MovieFrom(mv.idMovie, dto, fileName);
        var (saved, repo1) := SaveRow(st.repo, movie);
        match saved
        case Failure(e) => (Failure(e), CatalogState(repo1, fs1))
        case Success(_) => (Success(ToDto(movie, c.baseUrl)), CatalogState(repo1, fs1))
  }

  /** `deleteMovie`: find the row, delete its poster file, then delete the row. */
  function DeleteMovieStep(c: Config, st: CatalogState, id: int): (Result<string, Error>, CatalogState) {
    match RowWithId(st.repo.rows, id)
    case None => (Failure(MovieNotFound(NotFoundMessage(id))), st)
    case Some(mv) =>
      var fs1 := WithoutFile(st.fs, FilePath(c.posterPath, mv.poster));
      (Success(DeleteConfirmation(mv.idMovie.value)), CatalogState(DeleteRow(st.repo, mv), fs1))
  }

  /** Java's `String.toUpperCase` / `toLowerCase` on one character, for the
      ASCII letters and LATIN SMALL LETTER LONG S (whose upper case is 'S'). */
  function UpperCase(ch: char): char {
    if 'a' <= ch <= 'z' then (ch as int - 32) as char
    else if ch == '\U{17F}' then 'S'
    else ch
  }

  function LowerCase(ch: char): char {
    if 'A' <= ch <= 'Z' then (ch as int + 32) as char else ch
  }

  /** `String.equalsIgnoreCase`: same length, and position by position the
      characters are equal, or equal in upper case, or equal in lower case
      after upper-casing. */
  predicate EqualsIgnoreCase(a: string, b: string) {
    |a| == |b| &&
    forall i :: 0 <= i < |a| ==>
      a[i] == b[i] || UpperCase(a[i]) == UpperCase(b[i]) ||
      LowerCase(UpperCase(a[i])) == LowerCase(UpperCase(b[i]))
  }

  /** The sort direction `getAllMoviesWithPaginationAndSorting` picks: ascending
      exactly for "asc" in any case (including the long s), descending for every
      other string. */
  function DirectionOf(sortDirection: string): (d: Direction)
    ensures d == Ascending <==>
              |sortDirection| == 3 &&
              sortDirection[0] in {'a', 'A'} &&
              sortDirection[1] in {'s', 'S', '\U{17F}'} &&
              sortDirection[2] in {'c', 'C'}
  {
    if EqualsIgnoreCase(sortDirection, "asc") then Ascending else Descending
  }

  // ---------------------------------------------------------------------------
  // The catalog's consistency between rows and poster files

  /** Every row's poster file is on disk. */
  ghost predicate PostersResolve(c: Config, st: CatalogState) {
    forall i :: 0 <= i < |st.repo.rows| ==> FilePath(c.posterPath, st.repo.rows[i].poster) in st.fs.files
  }

  /** No two rows name the same poster file. */
  ghost predicate PostersDistinct(rows: seq<Movie>) {
    forall i, j :: 0 <= i < j < |rows| ==> rows[i].poster != rows[j].poster
  }

  /** The table keeps its guarantees and each row owns exactly one file on disk. */
  ghost predicate Consistent(c: Config, st: CatalogState) {
    RepoInvariant(st.repo) && PostersResolve(c, st) && PostersDistinct(st.repo.rows)
  }

  // ---------------------------------------------------------------------------
  // The running service

  class MovieServiceImpl {
    const movieRepository: MovieRepository
    const disk: FileSystem
    const posterPath: Path
    const baseUrl: string

    constructor (movieRepository: MovieRepository, disk: FileSystem, posterPath: Path, baseUrl: string)
      ensures this.movieRepository == movieRepository && this.disk == disk
      ensures this.posterPath == posterPath && this.baseUrl == baseUrl
    {
      this.movieRepository := movieRepository;
      this.disk := disk;
      this.posterPath := posterPath;
      this.baseUrl := baseUrl;
    }

    function Configuration(): Config {
      Config(posterPath, baseUrl)
    }

    function State(): CatalogState
      reads movieRepository, disk
    {
      CatalogState(movieRepository.State(), disk.State())
    }

    predicate Valid()
      reads movieRepository
    {
      movieRepository.Valid()
    }

    method AddMovie(movieDto: MovieDto, file: MultipartFile) returns (r: Result<MovieDto, Error>)
      requires Valid()
      modifies movieRepository, disk
      ensures Valid()
      ensures (r, State()) == AddMovieStep(Configuration(), old(State()), movieDto, file)
    {
      if disk.Exists(FilePath(posterPath, file.originalFilename)) {
        return Failure(FileExists(FileExistsMessage));
      }
      var uploaded := UploadFile(disk, posterPath, file);
      if uploaded.Failure? {
        return Failure(uploaded.error);
      }
      var uploadedFilename := uploaded.value;
      var movie := MovieFrom(None, movieDto, uploadedFilename);
      var saved := movieRepository.Save(movie);
      if saved.Failure? {
        return Failure(saved.error);
      }
      var savedMovie := saved.value;
      var posterUrl := PosterUrl(baseUrl, uploadedFilename);
      r := Success(MovieDto(savedMovie.idMovie, savedMovie.title, savedMovie.director, savedMovie.studio,
                            savedMovie.movieCast, savedMovie.releaseYear, savedMovie.poster, posterUrl));
    }

    method GetMovie(movieId: int) returns (r: Result<MovieDto, Error>)
      ensures r.Success? <==> exists i :: 0 <= i < |movieRepository.rows| && movieRepository.rows[i].idMovie == Some(movieId)
      ensures r.Failure? ==> r.error == MovieNotFound(NotFoundMessage(movieId))
      ensures r.Success? ==> RowOf(r.value) in movieRepository.rows && r.value.idMovie == Some(movieId)
      ensures r.Success? ==> r.value.posterUrl == PosterUrl(baseUrl, r.value.poster)
      ensures r == GetMovieView(Configuration(), movieRepository.rows, movieId)
    {
      var found := movieRepository.FindById(movieId);
      if found.None? {
        return Failure(MovieNotFound(NotFoundMessage(movieId)));
      }
      var movie := found.value;
      var posterUrl := PosterUrl(baseUrl, movie.poster);
      r := Success(MovieDto(movie.idMovie, movie.title, movie.director, movie.studio,
                            movie.movieCast, movie.releaseYear, movie.poster, posterUrl));
    }

    /** The loop the three listing operations share: one view per row, in order. */
    method ToDtos(movies: seq<Movie>) returns (movieDtos: seq<MovieDto>)
      ensures |movieDtos| == |movies|
      ensures forall i :: 0 <= i < |movies| ==> movieDtos[i] == ToDto(movies[i], baseUrl)
    {
      movieDtos := [];
      for k := 0 to |movies|
        invariant |movieDtos| == k
        invariant forall i :: 0 <= i < k ==> movieDtos[i] == ToDto(movies[i], baseUrl)
      {
        var movie := movies[k];
        var posterUrl := PosterUrl(baseUrl, movie.poster);
        var movieDto := MovieDto(movie.idMovie, movie.title, movie.director, movie.studio,
                                 movie.movieCast, movie.releaseYear, movie.poster, posterUrl);
        movieDtos := movieDtos + [movieDto];
      }
    }

    method GetAllMovies() returns (movieDtos: seq<MovieDto>)
      ensures |movieDtos| == |movieRepository.rows|
      ensures forall i :: 0 <= i < |movieDtos| ==>
                RowOf(movieDtos[i]) == movieRepository.rows[i] &&
                movieDtos[i].posterUrl == PosterUrl(baseUrl, movieRepository.rows[i].poster)
    {
      var movies := movieRepository.FindAll();
      movieDtos := ToDtos(movies);
    }

    method UpdateMovie(idMovie: int, movieDto: MovieDto, file: Option<MultipartFile>) returns (r: Result<MovieDto, Error>)
      requires Valid()
      modifies movieRepository, disk
      ensures Valid()
      ensures (r, State()) == UpdateMovieStep(Configuration(), old(State()), idMovie, movieDto, file)
    {
      var found := movieRepository.FindById(idMovie);
      if found.None? {
        return Failure(MovieNotFound(NotFoundMessage(idMovie)));
      }
      var mv := found.value;
      var fileName := mv.poster;
      if file.Some? {
        var _ := disk.DeleteIfExists(FilePath(posterPath, fileName));
        var uploaded := UploadFile(disk, posterPath, file.value);
        if uploaded.Failure? {
          return Failure(uploaded.error);
        }
        fileName := uploaded.value;
      }
      var movie := MovieFrom(mv.idMovie, movieDto, fileName);
      var saved := movieRepository.Save(movie);
      if saved.Failure? {
        return Failure(saved.error);
      }
      var posterUrl := PosterUrl(baseUrl, fileName);
      r := Success(MovieDto(movie.idMovie, movie.title, movie.director, movie.studio,
                            movie.movieCast, movie.releaseYear, movie.poster, posterUrl));
    }

    method DeleteMovie(movieId: int) returns (r: Result<string, Error>)
      requires Valid()
      modifies movieRepository, disk
      ensures Valid()
      ensures (r, State()) == DeleteMovieStep(Configuration(), old(State()), movieId)
    {
      var found := movieRepository.FindById(movieId);
      if found.None? {
        return Failure(MovieNotFound(NotFoundMessage(movieId)));
      }
      var mv := found.value;
      var id := mv.idMovie.value;
      var _ := disk.DeleteIfExists(FilePath(posterPath, mv.poster));
      movieRepository.Delete(mv);
      r := Success(DeleteConfirmation(id));
    }

    method GetAllMoviesWithPagination(pageNumber: int, pageSize: int) returns (r: Result<MoviePageResponse, Error>)
      ensures r.Success? <==> 0 <= pageNumber && 1 <= pageSize
      ensures r.Success? ==>
                var rows := movieRepository.rows;
                var content := Slice(rows, pageNumber, pageSize);
                && r.value.pageNumber == pageNumber
                && r.value.pageSize == pageSize
                && |r.value.movieDtos| == |content|
                && (forall i :: 0 <= i < |content| ==> r.value.movieDtos[i] == ToDto(content[i], baseUrl))
                && r.value.totalElements == |rows|
                && r.value.totalPages == TotalPages(|rows|, pageSize)
                && r.value.isLast == (pageNumber + 1 >= TotalPages(|rows|, pageSize))
    {
      var pageable := PageRequestOf(pageNumber, pageSize, None);
      if pageable.Failure? {
        return Failure(pageable.error);
      }
      var moviePages := movieRepository.FindAllPaged(pageable.value);
      var page := moviePages.value;
      var movieDtos := ToDtos(page.content);
      r := Success(MoviePageResponse(movieDtos, pageNumber, pageSize,
                                     page.totalElements, page.totalPages, page.isLast));
    }

    method GetAllMoviesWithPaginationAndSorting(pageNumber: int, pageSize: int, sortField: string, sortDirection: string)
      returns (r: Result<MoviePageResponse, Error>)
      ensures r.Success? <==>
                HasText(sortField) && 0 <= pageNumber && 1 <= pageSize && sortField in SortableProperties
      ensures r.Success? ==>
                var rows := movieRepository.rows;
                var ordered := SortRows(Sort(sortField, DirectionOf(sortDirection)), rows);
                var content := Slice(ordered, pageNumber, pageSize);
                && r.value.pageNumber == pageNumber
                && r.value.pageSize == pageSize
                && |r.value.movieDtos| == |content|
                && (forall i :: 0 <= i < |content| ==> r.value.movieDtos[i] == ToDto(content[i], baseUrl))
                && r.value.totalElements == |rows|
                && r.value.totalPages == TotalPages(|rows|, pageSize)
                && r.value.isLast == (pageNumber + 1 >= TotalPages(|rows|, pageSize))
    {
      var sort := SortBy(sortField, if EqualsIgnoreCase(sortDirection, "asc") then Ascending else Descending);
      if sort.Failure? {
        return Failure(sort.error);
      }
      var pageable := PageRequestOf(pageNumber, pageSize, Some(sort.value));
      if pageable.Failure? {
        return Failure(pageable.error);
      }
      var moviePage := movieRepository.FindAllPaged(pageable.value);
      if moviePage.Failure? {
        return Failure(moviePage.error);
      }
      var page := moviePage.value;
      assert |SortRows(sort.value, movieRepository.rows)| == |movieRepository.rows| by {
        SortRowsCorrect(sort.value, movieRepository.rows);
        assert |multiset(SortRows(sort.value, movieRepository.rows))| == |multiset(movieRepository.rows)|;
      }
      var movieDtos := ToDtos(page.content);
      r := Success(MoviePageResponse(movieDtos, pageNumber, pageSize,
                                     page.totalElements, page.totalPages, page.isLast));
    }
  }
}
