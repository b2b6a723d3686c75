/** The records and the enumeration shared by the services and the app. */
module Types {
  import opened Wrappers

  /**
   * A restaurant as the model returns it. Only `id` takes part in any logic;
   * the other fields are carried along unchanged. `rating` is a JavaScript
   * number and is never computed with, so it is kept as a real.
   */
  datatype Restaurant = Restaurant(
    id: string,
    name: string,
    city: string,
    cuisine: string,
    address: string,
    phoneNumber: string,
    mapUrl: string,
    websiteUrl: Option<string>,
    imageUrl: Option<string>,
    rating: real,
    reviewSummary: string,
    tags: seq<string>)

  /** Where the search screen is: before any search, waiting, or showing an outcome. */
  datatype LoadingState = Idle | Loading | Success | Error
}
