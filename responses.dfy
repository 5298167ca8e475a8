/** What a view answers. Rendering and URL reversing are left out: a page
    is the context it would render, a redirect names its target. */
module Responses {
  import opened Models

  datatype Response<T> =
    | Rendered(value: T)         // the context of a rendered page
    | ShowForm                   // the form page, rendered again
    | ToProfile(username: User)  // redirect to `posts:profile`
    | ToPostDetail(postId: nat)  // redirect to `posts:post_detail`
    | LoginRedirect              // `login_required` sends an anonymous caller to log in
    | NotFound                   // `get_object_or_404` found nothing
}
