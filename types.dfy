/** Record shapes of the URL shortener (src/types/index.ts). Times are integer
    milliseconds, as returned by Date.prototype.getTime. */
module Types {

  datatype Option<+T> = None | Some(value: T)

  datatype Result<+R, +E> = Success(value: R) | Failure(error: E)

  /** One alias record as the service stores it. */
  datatype ShortenedUrl = ShortenedUrl(
    id: string,
    originalUrl: string,
    shortCode: string,
    shortUrl: string,
    validityMinutes: int,
    expiryTime: int,
    createdAt: int)

  /** One creation request; both optional fields may be absent. */
  datatype UrlInput = UrlInput(
    originalUrl: string,
    validityMinutes: Option<int>,
    customShortCode: Option<string>)

  datatype UrlValidationError = UrlValidationError(field: string, message: string)
}
