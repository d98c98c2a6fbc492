/** `MovieController`: the HTTP handlers in front of the catalog. They guard
    the uploaded file, forward to the service and wrap its answer with a
    status. Parsing the JSON part into a `MovieDto` is not modelled: the
    handlers take the parsed value. */
module MovieApi {
  import opened Common
  import opened FileService
  import opened Repository
  import opened MovieService
  import opened MovieProperties

  const EmptyFileMessage: string := "File không tồn tại, hãy tải lại file khác"

  /** A service answer sent back with `status`; an exception passes through. */
  function WithStatus<T>(r: Result<T, Error>, status: int): (w: Result<Response<T>, Error>)
    ensures w.Success? <==> r.Success?
    ensures w.Success? ==> w.value == Response(status, r.value)
    ensures w.Failure? ==> w.error == r.error
  {
    match r
    case Success(v) => Success(Response(status, v))
    case Failure(e) => Failure(e)
  }

  /** The file `updateMovieHandler` passes on: an empty upload becomes `null`. */
  function UploadedOrNone(file: MultipartFile): (o: Option<MultipartFile>)
    ensures o.None? <==> file.IsEmpty()
    ensures o.Some? ==> o.value == file
  {
    if file.IsEmpty() then None else Some(file)
  }

  /** `addMovieHandler` as a function of the catalog before the request. */
  function AddMovieHandlerStep(c: Config, st: CatalogState, file: MultipartFile, dto: MovieDto)
    : (Result<Response<MovieDto>, Error>, CatalogState)
  {
    if file.IsEmpty() then (Failure(EmptyFile(EmptyFileMessage)), st)
    else
      var (r, st') := AddMovieStep(c, st, dto, file);
      (WithStatus(r, Created), st')
  }

  /** An empty upload is refused before the service runs, so neither the table
      nor the directory changes; any other upload is handed to `addMovie` and
      its result comes back with 201 CREATED. */
  lemma AddMovieHandlerGuard(c: Config, st: CatalogState, file: MultipartFile, dto: MovieDto)
    ensures var (r, st') := AddMovieHandlerStep(c, st, file, dto);
            && (file.IsEmpty() ==> r == Failure(EmptyFile(EmptyFileMessage)) && st' == st)
            && (!file.IsEmpty() ==>
                  && st' == AddMovieStep(c, st, dto, file).1
                  && (r.Success? <==> AddMovieStep(c, st, dto, file).0.Success?)
                  && (r.Success? ==> r.value == Response(Created, AddMovieStep(c, st, dto, file).0.value)))
  {
  }

  /** With an empty upload, `updateMovieHandler` keeps the poster and leaves
      the directory alone, exactly like an update without a file. */
  lemma UpdateMovieHandlerEmptyFileKeepsPoster(c: Config, st: CatalogState, id: int, file: MultipartFile, dto: MovieDto)
    requires RepoInvariant(st.repo)
    requires file.IsEmpty()
    requires RowWithId(st.repo.rows, id).Some?
    ensures var (r, st') := UpdateMovieStep(c, st, id, dto, UploadedOrNone(file));
            && st'.fs == st.fs
            && (r.Success? ==> r.value.poster == RowWithId(st.repo.rows, id).value.poster)
            && (r.Success? ==> RowWithId(st'.repo.rows, id) == Some(RowOf(r.value)))
  {
    UpdateWithoutFile(c, st, id, dto, id);
  }

  class MovieController {
    const movieService: MovieServiceImpl

    constructor (movieService: MovieServiceImpl)
      ensures this.movieService == movieService
    {
      this.movieService := movieService;
    }

    method AddMovieHandler(file: MultipartFile, dto: MovieDto) returns (r: Result<Response<MovieDto>, Error>)
      requires movieService.Valid()
      modifies movieService.movieRepository, movieService.disk
      ensures movieService.Valid()
      ensures (r, movieService.State()) == AddMovieHandlerStep(movieService.Configuration(), old(movieService.State()), file, dto)
    {
      if file.IsEmpty() {
        return Failure(EmptyFile(EmptyFileMessage));
      }
      var added := movieService.AddMovie(dto, file);
      r := WithStatus(added, Created);
    }

    method GetMovieHandler(idMovie: int) returns (r: Result<Response<MovieDto>, Error>)
      ensures r == WithStatus(GetMovieView(movieService.Configuration(), movieService.movieRepository.rows, idMovie), Ok)
    {
      var movie := movieService.GetMovie(idMovie);
      r := WithStatus(movie, Ok);
    }

    method GetAllMovieHandler() returns (r: Response<seq<MovieDto>>)
      ensures r.status == Ok
      ensures |r.body| == |movieService.movieRepository.rows|
      ensures forall i :: 0 <= i < |r.body| ==>
                r.body[i] == ToDto(movieService.movieRepository.rows[i], movieService.baseUrl)
    {
      var all := movieService.GetAllMovies();
      r := Response(Ok, all);
    }

    method UpdateMovieHandler(idMovie: int, file: MultipartFile, movieDtoObj: MovieDto) returns (r: Result<Response<MovieDto>, Error>)
      requires movieService.Valid()
      modifies movieService.movieRepository, movieService.disk
      ensures movieService.Valid()
      ensures var (u, st') := UpdateMovieStep(movieService.Configuration(), old(movieService.State()),
                                              idMovie, movieDtoObj, UploadedOrNone(file));
              r == WithStatus(u, Ok) && movieService.State() == st'
    {
      var poster: Option<MultipartFile> := Some(file);
      if file.IsEmpty() {
        poster := None;
      }
      var updated := movieService.UpdateMovie(idMovie, movieDtoObj, poster);
      r := WithStatus(updated, Ok);
    }

    method DeleteMovieHandler(idMovie: int) returns (r: Result<Response<string>, Error>)
      requires movieService.Valid()
      modifies movieService.movieRepository, movieService.disk
      ensures movieService.Valid()
      ensures var (d, st') := DeleteMovieStep(movieService.Configuration(), old(movieService.State()), idMovie);
              r == WithStatus(d, Ok) && movieService.State() == st'
    {
      var deleted := movieService.DeleteMovie(idMovie);
      r := WithStatus(deleted, Ok);
    }

    method GetMoviesWithPagination(pageNumber: int, pageSize: int) returns (r: Result<Response<MoviePageResponse>, Error>)
      ensures r.Success? <==> 0 <= pageNumber && 1 <= pageSize
      ensures r.Success? ==>
                var rows := movieService.movieRepository.rows;
                var content := Slice(rows, pageNumber, pageSize);
                var body := r.value.body;
                && r.value.status == Ok
                && body.pageNumber == pageNumber
                && body.pageSize == pageSize
                && |body.movieDtos| == |content|
                && (forall i :: 0 <= i < |content| ==> body.movieDtos[i] == ToDto(content[i], movieService.baseUrl))
                && body.totalElements == |rows|
                && body.totalPages == TotalPages(|rows|, pageSize)
                && body.isLast == (pageNumber + 1 >= TotalPages(|rows|, pageSize))
    {
      var page := movieService.GetAllMoviesWithPagination(pageNumber, pageSize);
      r := WithStatus(page, Ok);
    }

    method GetMoviesWithPaginationAndSorting(pageNumber: int, pageSize: int, sortBy: string, sortDirection: string)
      returns (r: Result<Response<MoviePageResponse>, Error>)
      ensures r.Success? <==> HasText(sortBy) && 0 <= pageNumber && 1 <= pageSize && sortBy in SortableProperties
      ensures r.Success? ==>
                var rows := movieService.movieRepository.rows;
                var ordered := SortRows(Sort(sortBy, DirectionOf(sortDirection)), rows);
                var content := Slice(ordered, pageNumber, pageSize);
                var body := r.value.body;
                && r.value.status == Ok
                && body.pageNumber == pageNumber
                && body.pageSize == pageSize
                && |body.movieDtos| == |content|
                && (forall i :: 0 <= i < |content| ==> body.movieDtos[i] == ToDto(content[i], movieService.baseUrl))
                && body.totalElements == |rows|
                && body.totalPages == TotalPages(|rows|, pageSize)
                && body.isLast == (pageNumber + 1 >= TotalPages(|rows|, pageSize))
    {
      var page := movieService.GetAllMoviesWithPaginationAndSorting(pageNumber, pageSize, sortBy, sortDirection);
      r := WithStatus(page, Ok);
    }
  }
}
