/**
 * The records the blog page works on: a post as fetched from the backend and
 * the author profile returned by the user lookup.
 */
module Posts {

  datatype Option<T> = None | Some(value: T)

  /**
   * One blog post. `category` is None for a post stored without one; `date` is
   * the publication time as an integer timestamp.
   */
  datatype Post = Post(
    id: string,
    title: string,
    description: string,
    content: string,
    category: Option<string>,
    userId: string,
    date: int)

  /** An author profile: family name, given name and an optional picture file. */
  datatype UserProfile = UserProfile(nom: string, prenom: string, picture: Option<string>)
}
