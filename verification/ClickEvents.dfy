/** The click event that the analytics pipeline carries (include/url_shortener/analytics/click_event.hpp). */
module ClickEvents {
  datatype ClickEvent = ClickEvent(
    eventId: string, occurredAt: int, slug: string, linkId: string, domain: string, statusCode: int,
    referrer: string, userAgent: string, clientIdHash: string)
}
